/**
 * The case-folding policy of match.cpp: the comparison key of one character
 * (`toupperc`, `touppercw`) and the whole-string and bounded comparisons built
 * on it (`mstricompc`, `mstrnicompc` and their wide twins).
 *
 * The platform's upper-casing (`CharUpper` on Windows, `toupper` elsewhere,
 * the identity on a `_UNIX` build) is foreign code, so it is a parameter
 * `upper` of every member. A C string is the sequence of its characters
 * without the terminating NUL; the platform upper-casing is assumed never to
 * turn a character into NUL, so the terminator of one string never compares
 * equal to a character of the other.
 */
module CaseFold {

  /** The comparison key of `c`: itself when case is forced, otherwise its
      platform upper-case form. */
  function Fold(upper: char -> char, c: char, forceCase: bool): char
  {
    if forceCase then c else upper(c)
  }

  /** The identity upper-casing of a `_UNIX` build. */
  function UnixUpper(c: char): char
  {
    c
  }

  /** Upper-casing of the "C" locale: only `a`..`z` change. An example
      platform, used by the example lemmas. */
  function AsciiUpper(c: char): char
  {
    if 'a' <= c <= 'z' then (c as int - 32) as char else c
  }

  /** The characters the matcher gives a meaning to, besides the terminator. */
  predicate IsMeta(c: char)
  {
    c == '*' || c == '?' || c == '.' || c == '\\'
  }

  /** A sane platform upper-casing: it leaves the meta characters alone and
      turns no other character into one. */
  ghost predicate PreservesMeta(upper: char -> char)
  {
    forall c :: IsMeta(c) || IsMeta(upper(c)) ==> upper(c) == c
  }

  /** The comparison keys of a whole string, one per character. */
  function Keys(upper: char -> char, s: seq<char>, forceCase: bool): seq<char>
  {
    seq(|s|, i requires 0 <= i < |s| => Fold(upper, s[i], forceCase))
  }

  /** `mstricompc(a, b, forceCase) == 0`: `strcmp` when case is forced,
      `stricompc` otherwise, walking both strings until a key differs or a
      terminator is reached. The body of `stricompc` is not part of this
      model: it is assumed to fold with the same `upper` as `toupperc`. */
  function StrEqual(upper: char -> char, a: seq<char>, b: seq<char>, forceCase: bool): bool
  {
    if a == [] || b == [] then a == [] && b == []
    else Fold(upper, a[0], forceCase) == Fold(upper, b[0], forceCase)
         && StrEqual(upper, a[1..], b[1..], forceCase)
  }

  /** `mstrnicompc(a, b, n, forceCase) == 0`: `strncmp` when case is forced or
      on a `_UNIX` build, `strnicomp` otherwise; at most `n` characters are
      compared and a terminator on both sides stops the comparison. The body
      of `strnicomp` is not part of this model: it is assumed to fold with the
      same `upper` as `toupperc`. */
  function StrNEqual(upper: char -> char, a: seq<char>, b: seq<char>, n: nat, forceCase: bool): bool
  {
    if n == 0 then true
    else if a == [] || b == [] then a == [] && b == []
    else Fold(upper, a[0], forceCase) == Fold(upper, b[0], forceCase)
         && StrNEqual(upper, a[1..], b[1..], n - 1, forceCase)
  }

  function Min(a: nat, b: nat): nat
  {
    if a <= b then a else b
  }

  /** Forcing case, or a `_UNIX` build, makes every key the character itself. */
  lemma FoldIsExact(upper: char -> char, c: char, forceCase: bool)
    ensures Fold(upper, c, true) == c
    ensures Fold(UnixUpper, c, forceCase) == c
  {
  }

  /** Under a sane upper-casing a key is a meta character exactly when the
      character is that meta character. */
  lemma FoldMeta(upper: char -> char, c: char, forceCase: bool)
    requires forceCase || PreservesMeta(upper)
    ensures IsMeta(c) ==> Fold(upper, c, forceCase) == c
    ensures IsMeta(Fold(upper, c, forceCase)) ==> Fold(upper, c, forceCase) == c
  {
  }

  /** Forcing case, or the `_UNIX` identity, gives the identity key sequence. */
  lemma KeysExact(upper: char -> char, s: seq<char>, forceCase: bool)
    ensures Keys(upper, s, true) == s
    ensures Keys(UnixUpper, s, forceCase) == s
  {
  }

  lemma KeysCons(upper: char -> char, s: seq<char>, forceCase: bool)
    requires s != []
    ensures Keys(upper, s, forceCase) == [Fold(upper, s[0], forceCase)] + Keys(upper, s[1..], forceCase)
  {
    var k, kt := Keys(upper, s, forceCase), Keys(upper, s[1..], forceCase);
    forall i | 1 <= i < |s| ensures k[i] == kt[i - 1] {
      assert s[1..][i - 1] == s[i];
    }
  }

  /** The string comparison is equality of the key sequences. */
  lemma {:induction false} StrEqualKeys(upper: char -> char, a: seq<char>, b: seq<char>, forceCase: bool)
    ensures StrEqual(upper, a, b, forceCase) <==> Keys(upper, a, forceCase) == Keys(upper, b, forceCase)
  {
    if a != [] && b != [] {
      StrEqualKeys(upper, a[1..], b[1..], forceCase);
      KeysCons(upper, a, forceCase);
      KeysCons(upper, b, forceCase);
      var ka, kb := Keys(upper, a, forceCase), Keys(upper, b, forceCase);
      assert ka[1..] == Keys(upper, a[1..], forceCase) && kb[1..] == Keys(upper, b[1..], forceCase);
      assert ka == kb <==> ka[0] == kb[0] && ka[1..] == kb[1..];
    } else {
      assert |Keys(upper, a, forceCase)| == |a| && |Keys(upper, b, forceCase)| == |b|;
    }
  }

  /** With case forced the comparison is plain equality; under any
      upper-casing it is reflexive, symmetric and transitive. */
  lemma StrEqualProperties(upper: char -> char, a: seq<char>, b: seq<char>, c: seq<char>, forceCase: bool)
    ensures StrEqual(upper, a, b, true) <==> a == b
    ensures StrEqual(upper, a, a, forceCase)
    ensures StrEqual(upper, a, b, forceCase) ==> StrEqual(upper, b, a, forceCase)
    ensures StrEqual(upper, a, b, forceCase) && StrEqual(upper, b, c, forceCase) ==> StrEqual(upper, a, c, forceCase)
  {
    StrEqualKeys(upper, a, b, true);
    KeysExact(upper, a, forceCase);
    KeysExact(upper, b, forceCase);
    StrEqualKeys(upper, a, a, forceCase);
    StrEqualKeys(upper, a, b, forceCase);
    StrEqualKeys(upper, b, a, forceCase);
    StrEqualKeys(upper, b, c, forceCase);
    StrEqualKeys(upper, a, c, forceCase);
  }

  /** The bounded comparison compares the first `n` characters of each string
      (fewer when a string is shorter) as whole strings. */
  lemma {:induction false} StrNEqualIsPrefixEqual(upper: char -> char, a: seq<char>, b: seq<char>, n: nat, forceCase: bool)
    ensures StrNEqual(upper, a, b, n, forceCase)
        <==> StrEqual(upper, a[..Min(n, |a|)], b[..Min(n, |b|)], forceCase)
  {
    if n != 0 && a != [] && b != [] {
      StrNEqualIsPrefixEqual(upper, a[1..], b[1..], n - 1, forceCase);
      assert a[..Min(n, |a|)][1..] == a[1..][..Min(n - 1, |a| - 1)];
      assert b[..Min(n, |b|)][1..] == b[1..][..Min(n - 1, |b| - 1)];
    }
  }

  /** Comparing a string's own length of characters (`mstrnicompc(w, s,
      strlen(w))`) says that `w` is, case-folded, a prefix of `s`. */
  lemma StrNEqualWhole(upper: char -> char, w: seq<char>, s: seq<char>, forceCase: bool)
    ensures StrNEqual(upper, w, s, |w|, forceCase)
        <==> |w| <= |s| && StrEqual(upper, w, s[..|w|], forceCase)
  {
    StrNEqualIsPrefixEqual(upper, w, s, |w|, forceCase);
    assert w[..|w|] == w;
    if |s| < |w| {
      StrEqualKeys(upper, w, s, forceCase);
      assert s[..|s|] == s;
    }
  }

  /** With case forced, or on a `_UNIX` build, the prefix test is literal:
      `w` is a prefix of `s`. */
  lemma StrNEqualWholeExact(upper: char -> char, w: seq<char>, s: seq<char>, forceCase: bool)
    ensures StrNEqual(upper, w, s, |w|, true) <==> |w| <= |s| && s[..|w|] == w
    ensures StrNEqual(UnixUpper, w, s, |w|, forceCase) <==> |w| <= |s| && s[..|w|] == w
  {
    StrNEqualWhole(upper, w, s, true);
    StrNEqualWhole(UnixUpper, w, s, forceCase);
    if |w| <= |s| {
      StrEqualProperties(upper, w, s[..|w|], w, true);
      StrEqualKeys(UnixUpper, w, s[..|w|], forceCase);
      KeysExact(UnixUpper, w, forceCase);
      KeysExact(UnixUpper, s[..|w|], forceCase);
    }
  }

  /** The keys of a concatenation are the concatenated keys. */
  lemma KeysAppend(upper: char -> char, a: seq<char>, b: seq<char>, forceCase: bool)
    ensures Keys(upper, a + b, forceCase) == Keys(upper, a, forceCase) + Keys(upper, b, forceCase)
  {
    var k, ka, kb := Keys(upper, a + b, forceCase), Keys(upper, a, forceCase), Keys(upper, b, forceCase);
    forall i | 0 <= i < |k| ensures k[i] == (ka + kb)[i] {
      if i < |a| {
        assert (a + b)[i] == a[i];
      } else {
        assert (a + b)[i] == b[i - |a|];
      }
    }
  }

  /** Comparing two strings piece by piece compares them whole. */
  lemma StrEqualAppend(upper: char -> char, a1: seq<char>, a2: seq<char>, b1: seq<char>, b2: seq<char>, forceCase: bool)
    requires StrEqual(upper, a1, b1, forceCase) && StrEqual(upper, a2, b2, forceCase)
    ensures StrEqual(upper, a1 + a2, b1 + b2, forceCase)
  {
    StrEqualKeys(upper, a1, b1, forceCase);
    StrEqualKeys(upper, a2, b2, forceCase);
    StrEqualKeys(upper, a1 + a2, b1 + b2, forceCase);
    KeysAppend(upper, a1, a2, forceCase);
    KeysAppend(upper, b1, b2, forceCase);
  }

  /** `AsciiUpper` is a sane platform upper-casing. */
  lemma AsciiUpperPreservesMeta()
    ensures PreservesMeta(AsciiUpper)
  {
  }
}
