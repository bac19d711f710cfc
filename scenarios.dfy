/**
 * Worked R and S examples, computed on the model.
 */
module Scenarios {
  import opened Base
  import opened Matching
  import opened Patterns
  import opened Editing

  lemma AlphaLine()
    ensures ReplaceResult("alpha", "a", "X", true) == Rewritten("XlphX", 2)
  {
    FindFromHit("alpha", "a", 0);
    assert "alpha"[..0] + "X" + "alpha"[1..] == "Xlpha";
    StepAt("alpha", "a", "X", 0);
    FindFromMiss("Xlpha", "a", 0);
    FindFromMiss("Xlpha", "a", 1);
    FindFromMiss("Xlpha", "a", 2);
    FindFromMiss("Xlpha", "a", 3);
    FindFromHit("Xlpha", "a", 4);
    assert "Xlpha"[..4] + "X" + "Xlpha"[5..] == "XlphX";
    StepAt("Xlpha", "a", "X", 4);
    NoA("XlphX");
    StepNone("XlphX", "a", "X");
    RewriteStops("XlphX", "a", "X", true, ReplaceLimit - 2);
    RewriteStep("Xlpha", "a", "X", true, ReplaceLimit - 1, "XlphX");
    RewriteStep("alpha", "a", "X", true, ReplaceLimit, "Xlpha");
  }

  lemma BetaLine()
    ensures ReplaceResult("beta", "a", "X", true) == Rewritten("betX", 1)
  {
    FindFromMiss("beta", "a", 0);
    FindFromMiss("beta", "a", 1);
    FindFromMiss("beta", "a", 2);
    FindFromHit("beta", "a", 3);
    assert "beta"[..3] + "X" + "beta"[4..] == "betX";
    StepAt("beta", "a", "X", 3);
    NoA("betX");
    StepNone("betX", "a", "X");
    RewriteStops("betX", "a", "X", true, ReplaceLimit - 1);
    RewriteStep("beta", "a", "X", true, ReplaceLimit, "betX");
  }

  lemma GammaLine()
    ensures ReplaceResult("gamma", "a", "X", true) == Rewritten("gXmmX", 2)
  {
    FindFromMiss("gamma", "a", 0);
    FindFromHit("gamma", "a", 1);
    assert "gamma"[..1] + "X" + "gamma"[2..] == "gXmma";
    StepAt("gamma", "a", "X", 1);
    FindFromMiss("gXmma", "a", 0);
    FindFromMiss("gXmma", "a", 1);
    FindFromMiss("gXmma", "a", 2);
    FindFromMiss("gXmma", "a", 3);
    FindFromHit("gXmma", "a", 4);
    assert "gXmma"[..4] + "X" + "gXmma"[5..] == "gXmmX";
    StepAt("gXmma", "a", "X", 4);
    NoA("gXmmX");
    StepNone("gXmmX", "a", "X");
    RewriteStops("gXmmX", "a", "X", true, ReplaceLimit - 2);
    RewriteStep("gXmma", "a", "X", true, ReplaceLimit - 1, "gXmmX");
    RewriteStep("gamma", "a", "X", true, ReplaceLimit, "gXmma");
  }

  /** A line without the letter a has no occurrence of "a". */
  lemma NoA(s: string)
    requires 'a' !in s
    ensures Find(s, "a") == None
  {
    forall k | 0 <= k < |s| ensures !Occurs(s, "a", k) {
      assert s[k..k + 1] == [s[k]];
    }
    assert !Occurs(s, "a", |s|);
  }

  /**
   * The spec of R 1,3 /a/X/g: rejected by the parser as written, read as
   * a global a -> X with the shared delimiter.
   */
  lemma ReplaceSpecScenario()
    ensures ParseReplaceSpec("/a/X/g") == None
    ensures ParseReplaceSpecShared("/a/X/g") == Some(Pattern("a", "X", true))
  {
    assert "/" + "a" + "/" + "X" + "/" + Flag(true) == "/a/X/g";
    DocumentedReplaceSyntaxRejected("a", "X", true);
    SharedDelimiterRoundTrip("a", "X", true);
  }

  /** R 1,3 with a global a -> X on alpha, beta, gamma gives XlphX, betX, gXmmX ... */
  lemma ReplaceScenario(c: seq<string>, pat: Pattern)
    requires c == ["alpha", "beta", "gamma"] && pat == Pattern("a", "X", true)
    ensures |ReplaceLines(c, 1, 3, pat)| == 3
    ensures ReplaceLines(c, 1, 3, pat)[0] == "XlphX"
    ensures ReplaceLines(c, 1, 3, pat)[1] == "betX"
    ensures ReplaceLines(c, 1, 3, pat)[2] == "gXmmX"
  {
    AlphaLine();
    BetaLine();
    GammaLine();
  }

  /** ... and reports 5 replacements. */
  lemma ReplaceCountScenario(c: seq<string>, pat: Pattern)
    requires c == ["alpha", "beta", "gamma"] && pat == Pattern("a", "X", true)
    ensures ReplaceTotal(c, 1, 3, pat) == 5
  {
    AlphaLine();
    BetaLine();
    GammaLine();
    assert MadeOn(c, 1, pat) == 2 && MadeOn(c, 2, pat) == 1 && MadeOn(c, 3, pat) == 2;
    assert ReplaceTotal(c, 1, 0, pat) == 0;
    assert ReplaceTotal(c, 1, 1, pat) == 2;
    assert ReplaceTotal(c, 1, 2, pat) == 3;
  }

  /** The spec of S /zz/ is the text zz. */
  lemma SearchSpecScenario()
    ensures ParseSearchSpec("/zz/") == Some("zz")
  {
    ParseBetweenRoundTrip("zz", '/', "", LineLen as nat);
    assert ['/'] + "zz" + ['/'] + "" == "/zz/";
  }

  /** A search over lines none of which contains the text, in any case, yields no hits. */
  lemma {:induction false} SearchWithoutMatch(c: seq<string>, lo: int, j: int, pat: string)
    requires forall k :: 0 <= k < |c| ==> StrCaseStrPos(c[k], pat) < 0
    ensures Matches(c, lo, j, pat) == []
    decreases j - lo + 1
  {
    if j >= lo {
      SearchWithoutMatch(c, lo, j - 1, pat);
    }
  }
}
