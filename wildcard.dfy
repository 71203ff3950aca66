/** `wildcard.toRegex` of src/utils/wildcard.js, modelled as the predicate "the regular
    expression it returns matches the string": each `*` stands for `[\w:\-]*`. */
module Wildcard {
  import opened Glob
  import Helpers

  /** The whole of `s` matches `pattern`, each `*` consuming a run of word characters,
      colons and dashes. */
  predicate ToRegexMatches(s: string, pattern: string): (r: bool)
    ensures r <==> exists fills :: IsExpansion(s, pattern, WordColonDashRun, fills)
  {
    GlobMatchIffExpansion(s, pattern, WordColonDashRun);
    GlobMatch(s, pattern, WordColonDashRun)
  }

  /** `\w` is contained in `[\w:\-]`, so whatever `matches` accepts, `toRegex` accepts. */
  lemma {:induction false} MatchesImpliesToRegexMatches(m: string, p: string)
    requires Helpers.Matches(m, p)
    ensures ToRegexMatches(m, p)
    decreases |p|, |m|
  {
    if p == [] {
    } else if p[0] == '*' {
      if Helpers.Matches(m, p[1..]) {
        MatchesImpliesToRegexMatches(m, p[1..]);
      } else {
        MatchesImpliesToRegexMatches(m[1..], p);
      }
    } else {
      MatchesImpliesToRegexMatches(m[1..], p[1..]);
    }
  }

  /** The containment is strict: a `toRegex` star also spans the colon. */
  lemma StarSpansColonOnlyInToRegex()
    ensures ToRegexMatches("menu:open", "*") && !Helpers.Matches("menu:open", "*")
  {
    RunMatchesStar("menu:open", WordColonDashRun);
    if Helpers.Matches("menu:open", "*") {
      MatchedCharacters("menu:open", "*", WordRun);
    }
  }

  /** A pattern without `*` (and without other regular-expression metacharacters, which
      `toRegex` does not escape) matches exactly itself. */
  lemma ToRegexWithoutStars(s: string, pattern: string)
    requires StarCount(pattern) == 0 && PlainPattern(pattern)
    ensures ToRegexMatches(s, pattern) <==> s == pattern
  {
    StarFreeMatchesExactly(s, pattern, WordColonDashRun);
  }

  /** Anchored at both ends: text around a star-free pattern without metacharacters
      makes the match fail (an unescaped `|` would split the anchors). */
  lemma ToRegexIsAnchored(before: string, pattern: string, after: string)
    requires StarCount(pattern) == 0 && PlainPattern(pattern) && before + after != []
    ensures !ToRegexMatches(before + pattern + after, pattern)
  {
    StarFreeMatchesExactly(before + pattern + after, pattern, WordColonDashRun);
    assert |before + pattern + after| > |pattern|;
  }

  /** test/utils/wildcard.js: an explicit string matches itself. */
  lemma ExplicitStringExample()
    ensures ToRegexMatches("hello world", "hello world")
  {
    LiteralMatchesItself("hello world", WordColonDashRun);
  }

  /** test/utils/wildcard.js: a star may stand for zero characters. */
  lemma StarMatchesZeroExample()
    ensures ToRegexMatches("hello world", "hello* world")
  {
    FillOneStar(WordColonDashRun, "hello", "", " world");
    assert "hello" + "" + " world" == "hello world";
    assert "hello" + "*" + " world" == "hello* world";
  }

  /** test/utils/wildcard.js: a star may stand for one character. */
  lemma StarMatchesOneExample()
    ensures ToRegexMatches("hello world", "hell* world")
  {
    FillOneStar(WordColonDashRun, "hell", "o", " world");
    assert "hell" + "o" + " world" == "hello world";
    assert "hell" + "*" + " world" == "hell* world";
  }

  /** test/utils/wildcard.js: a star may stand for several characters. */
  lemma StarMatchesSeveralExample()
    ensures ToRegexMatches("hello world", "h* world")
  {
    FillOneStar(WordColonDashRun, "h", "ello", " world");
    assert "h" + "ello" + " world" == "hello world";
    assert "h" + "*" + " world" == "h* world";
  }
}
