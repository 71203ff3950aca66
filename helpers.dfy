/** `matches_pattern` of src/helpers.js: each `*` of the pattern stands for `\w*`. */
module Helpers {
  import opened Glob

  /** The whole message matches the pattern, each `*` consuming a run of word characters. */
  predicate Matches(message: string, pattern: string): (r: bool)
    ensures r <==> exists fills :: IsExpansion(message, pattern, WordRun, fills)
  {
    GlobMatchIffExpansion(message, pattern, WordRun);
    GlobMatch(message, pattern, WordRun)
  }

  /** `*:*` matches exactly the strings `a:b` in which `a` and `b` are runs of word
      characters (either may be empty). */
  lemma StarColonStarMatchesWordPairs(m: string)
    ensures Matches(m, "*:*") <==>
      exists i :: 0 <= i < |m| && m[i] == ':' && AllAdmitted(WordRun, m[..i]) && AllAdmitted(WordRun, m[i + 1..])
  {
    if Matches(m, "*:*") {
      StarColonStarSplits(m);
    }
    if exists i :: 0 <= i < |m| && m[i] == ':' && AllAdmitted(WordRun, m[..i]) && AllAdmitted(WordRun, m[i + 1..]) {
      var i :| 0 <= i < |m| && m[i] == ':' && AllAdmitted(WordRun, m[..i]) && AllAdmitted(WordRun, m[i + 1..]);
      StarColonStarJoins(m, i);
    }
  }

  /** The joining half of StarColonStarMatchesWordPairs. */
  lemma StarColonStarJoins(m: string, i: int)
    requires 0 <= i < |m| && m[i] == ':' && AllAdmitted(WordRun, m[..i]) && AllAdmitted(WordRun, m[i + 1..])
    ensures Matches(m, "*:*")
  {
    FillTwoStars(WordRun, "", m[..i], ":", m[i + 1..], "");
    assert "" + m[..i] + ":" + m[i + 1..] + "" == m;
    assert "" + "*" + ":" + "*" + "" == "*:*";
  }

  /** The splitting half of StarColonStarMatchesWordPairs. */
  lemma StarColonStarSplits(m: string)
    requires Matches(m, "*:*")
    ensures exists i :: 0 <= i < |m| && m[i] == ':' && AllAdmitted(WordRun, m[..i]) && AllAdmitted(WordRun, m[i + 1..])
  {
    var p := "*:*";
    MatchHasExpansion(m, p, WordRun);
    var f :| IsExpansion(m, p, WordRun, f);
    assert p[1..] == ":*" && p[1..][1..] == "*" && p[1..][1..][1..] == "";
    assert |f| == 2;
    assert Expand(p[1..][1..], f[1..]) == f[1] + Expand("", f[2..]);
    assert Expand(p[1..], f[1..]) == [':'] + f[1];
    assert m == f[0] + [':'] + f[1];
    var i := |f[0]|;
    assert m[i] == ':' && m[..i] == f[0] && m[i + 1..] == f[1];
    assert AllAdmitted(WordRun, f[0]) && AllAdmitted(WordRun, f[1]);
  }

  /** test/helpers.js: `*:*` accepts well-formed messages. */
  lemma StarColonStarExamples()
    ensures Matches("menu:open", "*:*") && Matches("store:updated", "*:*")
  {
    FillTwoStars(WordRun, "", "menu", ":", "open", "");
    assert "" + "menu" + ":" + "open" + "" == "menu:open";
    assert "" + "*" + ":" + "*" + "" == "*:*";
    FillTwoStars(WordRun, "", "store", ":", "updated", "");
    assert "" + "store" + ":" + "updated" + "" == "store:updated";
  }

  /** test/helpers.js: a space is not a word character, so `*:*` refuses `menu: click`. */
  lemma SpaceIsNotMatched()
    ensures !Matches("menu: click", "*:*")
  {
    if Matches("menu: click", "*:*") {
      MatchedCharacters("menu: click", "*:*", WordRun);
    }
  }

  /** test/helpers.js: suffix wildcards in the module part match `menu:close`. */
  lemma ModuleSuffixWildcardExamples()
    ensures Matches("menu:close", "*:close") && Matches("menu:close", "me*:close")
  {
    FillOneStar(WordRun, "", "menu", ":close");
    assert "" + "menu" + ":close" == "menu:close";
    assert "" + "*" + ":close" == "*:close";
    FillOneStar(WordRun, "me", "nu", ":close");
    assert "me" + "nu" + ":close" == "menu:close";
    assert "me" + "*" + ":close" == "me*:close";
  }

  /** test/helpers.js: suffix wildcards in the signal part match `menu:close`. */
  lemma SignalSuffixWildcardExamples()
    ensures Matches("menu:close", "menu:*") && Matches("menu:close", "menu:cl*")
  {
    FillOneStar(WordRun, "menu:", "close", "");
    assert "menu:" + "close" + "" == "menu:close";
    assert "menu:" + "*" + "" == "menu:*";
    FillOneStar(WordRun, "menu:cl", "ose", "");
    assert "menu:cl" + "ose" + "" == "menu:close";
    assert "menu:cl" + "*" + "" == "menu:cl*";
  }

  /** test/helpers.js: suffix wildcards in both parts match `menu:close`, each star
      standing for the empty run. */
  lemma BothSuffixWildcardExample()
    ensures Matches("menu:close", "menu*:close*")
  {
    FillTwoStars(WordRun, "menu", "", ":close", "", "");
    assert "menu" + "" + ":close" + "" + "" == "menu:close";
    assert "menu" + "*" + ":close" + "*" + "" == "menu*:close*";
  }

  /** test/helpers.js: a pattern without wildcards matches the identical message. */
  lemma ExactMessageExample()
    ensures Matches("button:click", "button:click")
  {
    LiteralMatchesItself("button:click", WordRun);
  }

  /** test/helpers.js: `*:click` is refused by `button:click`, `*:click` and `*:*`. */
  lemma WildcardMessageExamples()
    ensures !Matches("*:click", "button:click") && !Matches("*:click", "*:click") && !Matches("*:click", "*:*")
  {
    assert "*:click"[0] == '*';
    assert PlainPattern("button:click") && PlainPattern("*:click") && PlainPattern("*:*");
    WildcardMessageMatchesNothing("*:click", "button:click");
    WildcardMessageMatchesNothing("*:click", "*:click");
    WildcardMessageMatchesNothing("*:click", "*:*");
  }

  /** A message holding `*` matches no pattern without metacharacters (`*` is not a word
      character; an unescaped `.` in the pattern would match it). */
  lemma WildcardMessageMatchesNothing(message: string, pattern: string)
    requires '*' in message && PlainPattern(pattern)
    ensures !Matches(message, pattern)
  {
    StarInMessageMatchesNothing(message, pattern, WordRun);
  }
}
