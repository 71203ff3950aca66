/** The anchored star-pattern construction that src/helpers.js and src/utils/wildcard.js
    share: the pattern becomes a regular expression anchored at both ends in which each
    `*` stands for a character class repeated zero or more times. Every character of the
    pattern other than `*` is compared literally. */
module Glob {

  /** `\w` of a JavaScript regular expression without the `u` flag: [A-Za-z0-9_]. */
  predicate IsWordChar(c: char): (r: bool)
    ensures r ==> c != ':' && c != '-' && c != '*' && c != ' '
  {
    ('a' <= c <= 'z') || ('A' <= c <= 'Z') || ('0' <= c <= '9') || c == '_'
  }

  /** The characters one `*` may stand for: `\w` in helpers.js, `[\w:\-]` in wildcard.js. */
  datatype StarClass = WordRun | WordColonDashRun {
    predicate Admits(c: char) {
      match this
      case WordRun => IsWordChar(c)
      case WordColonDashRun => IsWordChar(c) || c == ':' || c == '-'
    }
  }

  /** A character with a meaning of its own in a JavaScript regular expression, other
      than `*`: such characters are not compared literally by the source's expressions. */
  predicate IsRegexMeta(c: char) {
    c == '\\' || c == '^' || c == '$' || c == '.' || c == '|' || c == '?' || c == '+' ||
    c == '(' || c == ')' || c == '[' || c == ']' || c == '{' || c == '}'
  }

  /** A pattern on which "compared literally" is what the source's expression does. */
  predicate PlainPattern(p: string) {
    forall i :: 0 <= i < |p| ==> !IsRegexMeta(p[i])
  }

  predicate AllAdmitted(cls: StarClass, w: string) {
    forall i :: 0 <= i < |w| ==> cls.Admits(w[i])
  }

  /** The whole of `m` matches the whole of `p`: each `*` of `p` consumes zero or more
      characters the class admits, and every other character must be equal. */
  predicate GlobMatch(m: string, p: string, cls: StarClass): (r: bool)
    ensures r ==> |p| <= |m| + StarCount(p)
    decreases |p|, |m|
  {
    if p == [] then m == []
    else if p[0] == '*' then
      GlobMatch(m, p[1..], cls) || (m != [] && cls.Admits(m[0]) && GlobMatch(m[1..], p, cls))
    else
      m != [] && m[0] == p[0] && GlobMatch(m[1..], p[1..], cls)
  }

  function StarCount(p: string): (n: nat)
    ensures n <= |p|
  {
    if p == [] then 0 else (if p[0] == '*' then 1 else 0) + StarCount(p[1..])
  }

  /** `p` with its i-th `*` replaced by `fills[i]`. */
  function Expand(p: string, fills: seq<string>): (m: string)
    requires |fills| == StarCount(p)
    ensures |p| <= |m| + StarCount(p)
  {
    if p == [] then []
    else if p[0] == '*' then fills[0] + Expand(p[1..], fills[1..])
    else [p[0]] + Expand(p[1..], fills)
  }

  /** `m` is `p` with every star filled by a run of admitted characters. */
  predicate IsExpansion(m: string, p: string, cls: StarClass, fills: seq<string>) {
    && |fills| == StarCount(p)
    && (forall i :: 0 <= i < |fills| ==> AllAdmitted(cls, fills[i]))
    && Expand(p, fills) == m
  }

  lemma {:induction false} MatchHasExpansion(m: string, p: string, cls: StarClass)
    requires GlobMatch(m, p, cls)
    ensures exists fills :: IsExpansion(m, p, cls, fills)
    decreases |p|, |m|
  {
    if p == [] {
      assert IsExpansion(m, p, cls, []);
    } else if p[0] == '*' {
      if GlobMatch(m, p[1..], cls) {
        MatchHasExpansion(m, p[1..], cls);
        var f :| IsExpansion(m, p[1..], cls, f);
        var fills := [""] + f;
        assert fills[1..] == f;
        assert Expand(p, fills) == "" + Expand(p[1..], f);
        assert IsExpansion(m, p, cls, fills);
      } else {
        MatchHasExpansion(m[1..], p, cls);
        var f :| IsExpansion(m[1..], p, cls, f);
        var fills := [[m[0]] + f[0]] + f[1..];
        assert fills[1..] == f[1..];
        assert Expand(p, f) == f[0] + Expand(p[1..], f[1..]);
        assert Expand(p, fills) == [m[0]] + f[0] + Expand(p[1..], f[1..]);
        assert m == [m[0]] + m[1..];
        assert IsExpansion(m, p, cls, fills);
      }
    } else {
      MatchHasExpansion(m[1..], p[1..], cls);
      var f :| IsExpansion(m[1..], p[1..], cls, f);
      assert m == [m[0]] + m[1..];
      assert IsExpansion(m, p, cls, f);
    }
  }

  /** A star followed by an admitted run `w` and a match of the rest. */
  lemma {:induction false} StarAbsorbs(w: string, rest: string, p: string, cls: StarClass)
    requires p != [] && p[0] == '*' && AllAdmitted(cls, w) && GlobMatch(rest, p[1..], cls)
    ensures GlobMatch(w + rest, p, cls)
    decreases |w|
  {
    if w == [] {
      assert w + rest == rest;
    } else {
      StarAbsorbs(w[1..], rest, p, cls);
      assert (w + rest)[1..] == w[1..] + rest;
    }
  }

  lemma {:induction false} ExpansionMatches(p: string, cls: StarClass, fills: seq<string>)
    requires |fills| == StarCount(p)
    requires forall i :: 0 <= i < |fills| ==> AllAdmitted(cls, fills[i])
    ensures GlobMatch(Expand(p, fills), p, cls)
    decreases |p|
  {
    if p == [] {
    } else if p[0] == '*' {
      ExpansionMatches(p[1..], cls, fills[1..]);
      assert AllAdmitted(cls, fills[0]);
      StarAbsorbs(fills[0], Expand(p[1..], fills[1..]), p, cls);
    } else {
      ExpansionMatches(p[1..], cls, fills);
      assert Expand(p, fills)[1..] == Expand(p[1..], fills);
    }
  }

  /** The regex semantics: `m` matches `p` exactly when `m` is `p` with each star
      replaced by some run of admitted characters, the whole string anchored at both ends. */
  lemma GlobMatchIffExpansion(m: string, p: string, cls: StarClass)
    ensures GlobMatch(m, p, cls) <==> exists fills :: IsExpansion(m, p, cls, fills)
  {
    if GlobMatch(m, p, cls) {
      MatchHasExpansion(m, p, cls);
    }
    if exists fills :: IsExpansion(m, p, cls, fills) {
      var fills :| IsExpansion(m, p, cls, fills);
      ExpansionMatches(p, cls, fills);
    }
  }

  /** A pattern without `*` matches exactly itself (so matching is case-sensitive and
      anchored: no proper extension of the pattern matches). */
  lemma {:induction false} StarFreeMatchesExactly(m: string, p: string, cls: StarClass)
    requires StarCount(p) == 0
    ensures GlobMatch(m, p, cls) <==> m == p
    decreases |p|
  {
    if p != [] {
      assert p[0] != '*';
      if m == [] {
        assert !GlobMatch(m, p, cls) && m != p;
      } else {
        StarFreeMatchesExactly(m[1..], p[1..], cls);
        assert m == [m[0]] + m[1..] && p == [p[0]] + p[1..];
      }
    }
  }

  /** A pattern has no star exactly when it holds no `*` character. */
  lemma {:induction false} StarCountZero(p: string)
    ensures StarCount(p) == 0 <==> '*' !in p
    decreases |p|
  {
    if p != [] {
      StarCountZero(p[1..]);
      assert p == [p[0]] + p[1..];
    }
  }

  /** A pattern holding no `*` matches exactly the identical string. */
  lemma LiteralMatchesExactly(m: string, p: string, cls: StarClass)
    requires '*' !in p
    ensures GlobMatch(m, p, cls) <==> m == p
  {
    StarCountZero(p);
    StarFreeMatchesExactly(m, p, cls);
  }

  /** Every character of a matched string is admitted by the star class or is one of
      the pattern's own non-star characters. */
  lemma {:induction false} MatchedCharacters(m: string, p: string, cls: StarClass)
    requires GlobMatch(m, p, cls)
    ensures forall i :: 0 <= i < |m| ==> cls.Admits(m[i]) || (m[i] in p && m[i] != '*')
    decreases |p|, |m|
  {
    if p == [] {
    } else if p[0] == '*' {
      if GlobMatch(m, p[1..], cls) {
        MatchedCharacters(m, p[1..], cls);
        forall i | 0 <= i < |m| && m[i] in p[1..] ensures m[i] in p { }
      } else {
        MatchedCharacters(m[1..], p, cls);
        forall i | 0 <= i < |m| ensures cls.Admits(m[i]) || (m[i] in p && m[i] != '*') {
          if i > 0 { assert m[i] == m[1..][i - 1]; }
        }
      }
    } else {
      MatchedCharacters(m[1..], p[1..], cls);
      forall i | 0 <= i < |m| ensures cls.Admits(m[i]) || (m[i] in p && m[i] != '*') {
        if i > 0 {
          assert m[i] == m[1..][i - 1];
          assert m[i] in p[1..] ==> m[i] in p;
        }
      }
    }
  }

  /** Neither star class admits `*`, so a string holding `*` matches no pattern at all. */
  lemma StarInMessageMatchesNothing(m: string, p: string, cls: StarClass)
    requires '*' in m
    ensures !GlobMatch(m, p, cls)
  {
    if GlobMatch(m, p, cls) {
      MatchedCharacters(m, p, cls);
    }
  }

  /** Matches compose: a match of `p1` followed by a match of `p2` matches `p1 + p2`. */
  lemma {:induction false} ConcatMatch(m1: string, p1: string, m2: string, p2: string, cls: StarClass)
    requires GlobMatch(m1, p1, cls) && GlobMatch(m2, p2, cls)
    ensures GlobMatch(m1 + m2, p1 + p2, cls)
    decreases |p1|, |m1|
  {
    if p1 == [] {
      assert m1 + m2 == m2 && p1 + p2 == p2;
    } else if p1[0] == '*' {
      assert (p1 + p2)[0] == '*' && (p1 + p2)[1..] == p1[1..] + p2;
      if GlobMatch(m1, p1[1..], cls) {
        ConcatMatch(m1, p1[1..], m2, p2, cls);
      } else {
        ConcatMatch(m1[1..], p1, m2, p2, cls);
        assert (m1 + m2)[0] == m1[0] && (m1 + m2)[1..] == m1[1..] + m2;
      }
    } else {
      ConcatMatch(m1[1..], p1[1..], m2, p2, cls);
      assert (p1 + p2)[0] == p1[0] && (p1 + p2)[1..] == p1[1..] + p2;
      assert (m1 + m2)[0] == m1[0] && (m1 + m2)[1..] == m1[1..] + m2;
    }
  }

  /** A lone `*` matches any run of admitted characters, the empty run included. */
  lemma RunMatchesStar(w: string, cls: StarClass)
    requires AllAdmitted(cls, w)
    ensures GlobMatch(w, "*", cls)
  {
    StarAbsorbs(w, "", "*", cls);
    assert w + "" == w;
  }

  /** A string without `*` matches itself. */
  lemma {:induction false} LiteralMatchesItself(x: string, cls: StarClass)
    requires '*' !in x
    ensures GlobMatch(x, x, cls)
    decreases |x|
  {
    if x != [] {
      assert x[0] != '*';
      LiteralMatchesItself(x[1..], cls);
    }
  }

  /** Literal text, an admitted run in place of a `*`, then literal text. */
  lemma FillOneStar(cls: StarClass, before: string, fill: string, after: string)
    requires '*' !in before && '*' !in after && AllAdmitted(cls, fill)
    ensures GlobMatch(before + fill + after, before + "*" + after, cls)
  {
    LiteralMatchesItself(before, cls);
    RunMatchesStar(fill, cls);
    LiteralMatchesItself(after, cls);
    ConcatMatch(before, before, fill, "*", cls);
    ConcatMatch(before + fill, before + "*", after, after, cls);
  }

  /** Literal text and admitted runs in place of two stars. */
  lemma FillTwoStars(cls: StarClass, a: string, fill1: string, b: string, fill2: string, c: string)
    requires '*' !in a && '*' !in b && '*' !in c
    requires AllAdmitted(cls, fill1) && AllAdmitted(cls, fill2)
    ensures GlobMatch(a + fill1 + b + fill2 + c, a + "*" + b + "*" + c, cls)
  {
    FillOneStar(cls, a, fill1, b);
    RunMatchesStar(fill2, cls);
    LiteralMatchesItself(c, cls);
    ConcatMatch(a + fill1 + b, a + "*" + b, fill2, "*", cls);
    ConcatMatch(a + fill1 + b + fill2, a + "*" + b + "*", c, c, cls);
  }
}
