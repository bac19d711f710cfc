/**
 * The pattern matcher: case-sensitive search (the C library's strstr),
 * case-insensitive search (strcasestr_pos) and the bounded find/replace of
 * one line (replace_in_line).
 */
module Matching {
  import opened Base
  import opened Chars

  /** pat occurs in s starting at position i. */
  predicate Occurs(s: string, pat: string, i: nat) {
    i + |pat| <= |s| && s[i..i + |pat|] == pat
  }

  /** strstr from position i: the leftmost occurrence at or after i. */
  function FindFrom(s: string, pat: string, i: nat): (r: Option<nat>)
    requires i <= |s|
    ensures r.Some? ==> i <= r.value && Occurs(s, pat, r.value)
    decreases |s| - i
  {
    if i + |pat| > |s| then None
    else if s[i..i + |pat|] == pat then Some(i)
    else FindFrom(s, pat, i + 1)
  }

  /** strstr: the position of the leftmost occurrence of pat in s, if any. */
  function Find(s: string, pat: string): (r: Option<nat>)
    ensures r.Some? ==> Occurs(s, pat, r.value)
  {
    FindFrom(s, pat, 0)
  }

  lemma {:induction false} FindFromLeftmost(s: string, pat: string, i: nat)
    requires i <= |s|
    ensures FindFrom(s, pat, i).Some? ==> forall k :: i <= k < FindFrom(s, pat, i).value ==> !Occurs(s, pat, k)
    ensures FindFrom(s, pat, i).None? ==> forall k :: i <= k <= |s| ==> !Occurs(s, pat, k)
    decreases |s| - i
  {
    if i + |pat| <= |s| && s[i..i + |pat|] != pat {
      FindFromLeftmost(s, pat, i + 1);
    }
  }

  /**
   * strstr finds the leftmost occurrence: nothing occurs before the position
   * it returns, and when it returns nothing there is no occurrence at all.
   */
  lemma FindLeftmost(s: string, pat: string)
    ensures Find(s, pat).Some? ==> forall k :: 0 <= k < Find(s, pat).value ==> !Occurs(s, pat, k)
    ensures Find(s, pat).None? ==> forall k :: 0 <= k <= |s| ==> !Occurs(s, pat, k)
  {
    FindFromLeftmost(s, pat, 0);
  }

  /** strstr stops at an occurrence. */
  lemma FindFromHit(s: string, pat: string, i: nat)
    requires Occurs(s, pat, i)
    ensures FindFrom(s, pat, i) == Some(i)
  {
  }

  /** strstr moves on past a position whose first character already differs. */
  lemma FindFromMiss(s: string, pat: string, i: nat)
    requires 0 < |pat| && i + |pat| <= |s| && s[i] != pat[0]
    ensures FindFrom(s, pat, i) == FindFrom(s, pat, i + 1)
  {
    assert s[i..i + |pat|][0] == s[i];
  }

  // ---------------------------------------------------------------- strcasestr_pos

  /** needle matches hay at i when both are folded to lower case. */
  predicate FoldedAt(hay: string, needle: string, i: nat) {
    i + |needle| <= |hay| &&
    forall k :: 0 <= k < |needle| ==> ToLower(hay[i + k]) == ToLower(needle[k])
  }

  /** The inner loop of strcasestr_pos: characters j.. of needle agree with hay at i. */
  function CaseAgree(hay: string, needle: string, i: nat, j: nat): (r: bool)
    requires i + |needle| <= |hay| && j <= |needle|
    ensures r <==> forall k :: j <= k < |needle| ==> ToLower(hay[i + k]) == ToLower(needle[k])
    decreases |needle| - j
  {
    j == |needle| || (ToLower(hay[i + j]) == ToLower(needle[j]) && CaseAgree(hay, needle, i, j + 1))
  }

  /** The outer loop of strcasestr_pos, from start position i. */
  function CaseScan(hay: string, needle: string, i: nat): (r: int)
    ensures r == -1 || (i <= r && FoldedAt(hay, needle, r))
    ensures r >= 0 ==> forall k :: i <= k < r ==> !FoldedAt(hay, needle, k)
    ensures r == -1 ==> forall k :: i <= k <= |hay| ==> !FoldedAt(hay, needle, k)
    decreases |hay| - i
  {
    if i + |needle| > |hay| then -1
    else if CaseAgree(hay, needle, i, 0) then i
    else CaseScan(hay, needle, i + 1)
  }

  /**
   * strcasestr_pos: the first position where needle occurs in hay ignoring
   * ASCII case, -1 when there is none; an empty needle is found at 0.
   */
  function StrCaseStrPos(hay: string, needle: string): (r: int)
    ensures r >= -1
    ensures |needle| == 0 ==> r == 0
    ensures r >= 0 ==> FoldedAt(hay, needle, r) && forall k :: 0 <= k < r ==> !FoldedAt(hay, needle, k)
    ensures r == -1 <==> forall k :: 0 <= k <= |hay| ==> !FoldedAt(hay, needle, k)
  {
    if |needle| == 0 then 0 else CaseScan(hay, needle, 0)
  }

  lemma FoldedIffOccurs(hay: string, needle: string, i: nat)
    ensures FoldedAt(hay, needle, i) <==> Occurs(Lower(hay), Lower(needle), i)
  {
    if i + |needle| <= |hay| {
      LowerSlice(hay, i, i + |needle|);
      var l := Lower(hay)[i..i + |needle|];
      if FoldedAt(hay, needle, i) {
        assert forall k :: 0 <= k < |needle| ==> l[k] == Lower(needle)[k];
      }
      if Occurs(Lower(hay), Lower(needle), i) {
        assert forall k :: 0 <= k < |needle| ==> l[k] == Lower(needle)[k];
      }
    }
  }

  /**
   * Case-insensitive search is case-sensitive search on the folded strings:
   * strcasestr_pos agrees with strstr on Lower(hay) and Lower(needle).
   */
  lemma StrCaseStrPosIsFoldedFind(hay: string, needle: string)
    ensures StrCaseStrPos(hay, needle) == match Find(Lower(hay), Lower(needle)) case Some(i) => i as int case None => -1
  {
    var r := StrCaseStrPos(hay, needle);
    var f := Find(Lower(hay), Lower(needle));
    forall k: nat ensures FoldedAt(hay, needle, k) <==> Occurs(Lower(hay), Lower(needle), k) {
      FoldedIffOccurs(hay, needle, k);
    }
    FindLeftmost(Lower(hay), Lower(needle));
  }

  // ---------------------------------------------------------------- replace_in_line

  /** The state replace_in_line leaves behind: the rewritten line and the count it returns. */
  datatype Rewritten = Rewritten(text: string, made: nat)

  /**
   * One pass of the replace loop: the leftmost occurrence of oldp replaced by
   * newp, unless there is none or the rewritten line would not fit a
   * LINE_LEN buffer with its terminator.
   */
  function Step(s: string, oldp: string, newp: string): (r: Option<string>)
    ensures r.Some? ==> |r.value| < LineLen - 1
    ensures Find(s, oldp) == None ==> r == None
  {
    match Find(s, oldp)
    case None => None
    case Some(i) =>
      if i + |newp| + (|s| - i - |oldp|) + 1 >= LineLen then None
      else Some(s[..i] + newp + s[i + |oldp|..])
  }

  lemma StepAt(s: string, oldp: string, newp: string, i: nat)
    requires Find(s, oldp) == Some(i)
    requires i + |newp| + (|s| - i - |oldp|) + 1 < LineLen
    ensures Step(s, oldp, newp) == Some(s[..i] + newp + s[i + |oldp|..])
  {
  }

  lemma StepNone(s: string, oldp: string, newp: string)
    requires Find(s, oldp) == None
    ensures Step(s, oldp, newp) == None
  {
  }

  lemma StepTooLong(s: string, oldp: string, newp: string, i: nat)
    requires Find(s, oldp) == Some(i)
    requires i + |newp| + (|s| - i - |oldp|) + 1 >= LineLen
    ensures Step(s, oldp, newp) == None
  {
  }

  /** The replace loop with `limit` iterations left. */
  function Rewrite(s: string, oldp: string, newp: string, global: bool, limit: int): (r: Rewritten)
    requires limit >= 1
    ensures r.made <= limit
    ensures !global ==> r.made <= 1
    ensures r.made == 0 ==> r.text == s
    ensures r.made > 0 ==> |r.text| < LineLen - 1
    decreases limit
  {
    match Step(s, oldp, newp)
    case None => Rewritten(s, 0)
    case Some(t) =>
      if !global || limit - 1 <= 0 then Rewritten(t, 1)
      else
        var rest := Rewrite(t, oldp, newp, global, limit - 1);
        Rewritten(rest.text, rest.made + 1)
  }

  lemma RewriteStops(s: string, oldp: string, newp: string, global: bool, limit: int)
    requires limit >= 1 && Step(s, oldp, newp) == None
    ensures Rewrite(s, oldp, newp, global, limit) == Rewritten(s, 0)
  {
  }

  lemma RewriteStep(s: string, oldp: string, newp: string, global: bool, limit: int, t: string)
    requires limit >= 1 && Step(s, oldp, newp) == Some(t)
    ensures !global || limit - 1 <= 0 ==> Rewrite(s, oldp, newp, global, limit) == Rewritten(t, 1)
    ensures global && limit - 1 > 0 ==>
      Rewrite(s, oldp, newp, global, limit).text == Rewrite(t, oldp, newp, global, limit - 1).text &&
      Rewrite(s, oldp, newp, global, limit).made == Rewrite(t, oldp, newp, global, limit - 1).made + 1
  {
  }

  /**
   * A global replace stops early only when it is stuck: with fewer than
   * limit replacements made, no further splice applies to the final line.
   */
  lemma {:induction false} GlobalStopsOnlyWhenStuck(s: string, oldp: string, newp: string, limit: int)
    requires limit >= 1
    ensures var r := Rewrite(s, oldp, newp, true, limit);
      r.made < limit ==> Step(r.text, oldp, newp) == None
    decreases limit
  {
    match Step(s, oldp, newp)
    case None =>
    case Some(t) =>
      if limit - 1 > 0 {
        GlobalStopsOnlyWhenStuck(t, oldp, newp, limit - 1);
      }
  }

  /** What replace_in_line does to a line: nothing for an empty pattern, else the capped loop. */
  function ReplaceResult(s: string, oldp: string, newp: string, global: bool): (r: Rewritten)
    ensures |oldp| == 0 ==> r == Rewritten(s, 0)
    ensures r.made <= ReplaceLimit
    ensures !global ==> r.made <= 1
    ensures |s| < LineLen ==> |r.text| < LineLen
  {
    if |oldp| == 0 then Rewritten(s, 0) else Rewrite(s, oldp, newp, global, ReplaceLimit)
  }

  /**
   * replace_in_line with g leaves no replaceable occurrence behind unless it
   * hit the cap of ReplaceLimit: either strstr finds nothing in the final
   * line or the length guard refuses the next splice.
   */
  lemma GlobalReplaceExhausts(s: string, oldp: string, newp: string)
    requires |oldp| > 0
    ensures var r := ReplaceResult(s, oldp, newp, true);
      r.made < ReplaceLimit ==> Step(r.text, oldp, newp) == None
  {
    GlobalStopsOnlyWhenStuck(s, oldp, newp, ReplaceLimit);
  }

  /**
   * One pass of the loop in replace_in_line: strstr for oldp, the length
   * guard, and the splice into a fresh LINE_LEN buffer.
   */
  method ReplacePass(s: string, oldp: string, newp: string) returns (fits: bool, t: string)
    ensures fits == Step(s, oldp, newp).Some?
    ensures fits ==> t == Step(s, oldp, newp).value
  {
    t := s;
    var found := Find(s, oldp);
    if found.None? {
      StepNone(s, oldp, newp);
      return false, t;
    }
    var i := found.value;
    var prefix := i;
    var suffix := |s| - i - |oldp|;
    if prefix + |newp| + suffix + 1 >= LineLen {
      StepTooLong(s, oldp, newp, i);
      return false, t;
    }
    t := s[..prefix] + newp + s[i + |oldp|..];
    StepAt(s, oldp, newp, i);
    fits := true;
  }

  /**
   * replace_in_line: repeatedly find the leftmost occurrence of oldp in the
   * current text (the search restarts at the start of the rewritten line),
   * splice in newp, stop after one replacement unless global, when the line
   * would reach LINE_LEN - 1 characters, or after ReplaceLimit replacements.
   */
  method ReplaceInLine(line: string, oldp: string, newp: string, global: bool)
    returns (s: string, made: nat)
    ensures Rewritten(s, made) == ReplaceResult(line, oldp, newp, global)
  {
    s, made := line, 0;
    if |oldp| == 0 {
      return;
    }
    var limit := ReplaceLimit;
    ghost var goal := Rewrite(line, oldp, newp, global, ReplaceLimit);
    var done := false;
    while !done
      invariant 0 <= limit <= ReplaceLimit
      invariant !done ==> 1 <= limit
      invariant !done ==> Rewrite(s, oldp, newp, global, limit).text == goal.text
      invariant !done ==> made + Rewrite(s, oldp, newp, global, limit).made == goal.made
      invariant done ==> s == goal.text && made == goal.made
      decreases limit, !done
    {
      var fits, t := ReplacePass(s, oldp, newp);
      if !fits {
        RewriteStops(s, oldp, newp, global, limit);
        done := true;
      } else {
        RewriteStep(s, oldp, newp, global, limit, t);
        s := t;
        made := made + 1;
        if !global {
          done := true;
        } else {
          limit := limit - 1;
          done := limit <= 0;
        }
      }
    }
  }

  /**
   * A single (non-global) replacement rewrites exactly the leftmost
   * occurrence, when the result fits; otherwise the line is unchanged.
   */
  lemma ReplaceOnceLeftmost(s: string, oldp: string, newp: string, i: nat)
    requires |oldp| > 0
    requires Occurs(s, oldp, i) && forall k :: 0 <= k < i ==> !Occurs(s, oldp, k)
    ensures |s| - |oldp| + |newp| + 1 < LineLen ==>
      ReplaceResult(s, oldp, newp, false) == Rewritten(s[..i] + newp + s[i + |oldp|..], 1)
    ensures |s| - |oldp| + |newp| + 1 >= LineLen ==> ReplaceResult(s, oldp, newp, false) == Rewritten(s, 0)
  {
    FindLeftmost(s, oldp);
  }

  /** Without an occurrence, replacing changes nothing. */
  lemma ReplaceAbsent(s: string, oldp: string, newp: string, global: bool)
    requires forall k :: 0 <= k <= |s| ==> !Occurs(s, oldp, k)
    ensures ReplaceResult(s, oldp, newp, global) == Rewritten(s, 0)
  {
    FindLeftmost(s, oldp);
  }

  /** A line of n copies of 'a'. */
  function As(n: nat): (r: string)
    ensures |r| == n
    ensures forall k :: 0 <= k < n ==> r[k] == 'a'
  {
    if n == 0 then [] else As(n - 1) + ['a']
  }

  /**
   * Because every pass searches again from the start of the line, a global
   * replacement whose new text contains the old one keeps rewriting until
   * the length guard stops it: /a/aa/g grows a run of 'a's to 254.
   */
  lemma {:induction false} RestartGrows(n: nat, limit: int)
    requires 1 <= n <= LineLen - 2
    requires limit >= LineLen - 1 - n
    decreases LineLen - 2 - n
    ensures Rewrite(As(n), "a", "aa", true, limit) == Rewritten(As(LineLen - 2), LineLen - 2 - n)
  {
    var s := As(n);
    assert Occurs(s, "a", 0) by {
      assert s[0..1] == "a";
    }
    assert Find(s, "a") == Some(0);
    if n < LineLen - 2 {
      var t := s[..0] + "aa" + s[1..];
      assert t == As(n + 1);
      assert Step(s, "a", "aa") == Some(As(n + 1));
      RestartGrows(n + 1, limit - 1);
    } else {
      assert Step(s, "a", "aa") == None;
    }
  }

  /** Replacing with /a/aa/g on the line "a" makes 253 replacements and leaves 254 characters. */
  lemma RestartGrowsFromOne()
    ensures ReplaceResult("a", "a", "aa", true) == Rewritten(As(254), 253)
  {
    assert As(1) == "a";
    RestartGrows(1, ReplaceLimit);
  }
}
