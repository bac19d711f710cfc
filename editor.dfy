/**
 * The editor's global state as a class: the slot array lines[] of MaxLines
 * entries, line_count, the cursor and the last range a command used. Each
 * method performs one of the C routines in place and states the new state
 * through the value models of Store, Matching and CursorModel.
 */
module Editing {
  import opened Base
  import opened Chars
  import opened Matching
  import opened Ranges
  import opened Patterns
  import opened Store
  import CursorModel

  /** The lines changed by cmd_replace: each line of lo..hi that exists, rewritten by replace_in_line. */
  function ReplaceLines(c: seq<string>, lo: int, hi: int, pat: Pattern): (r: seq<string>)
    ensures |r| == |c|
    ensures forall k :: 0 <= k < |c| && !(lo - 1 <= k < hi) ==> r[k] == c[k]
    ensures Bounded(c) ==> Bounded(r)
  {
    seq(|c|, k requires 0 <= k < |c| =>
      if lo - 1 <= k < hi then ReplaceResult(c[k], pat.oldp, pat.newp, pat.global).text else c[k])
  }

  /** The slots after replace_in_line has run on line i (1-based) of the first n. */
  function ReplaceSlot(s: seq<string>, i: int, n: int, pat: Pattern): (r: seq<string>)
    ensures |r| == |s|
  {
    if 1 <= i <= n && i <= |s| then s[i - 1 := ReplaceResult(s[i - 1], pat.oldp, pat.newp, pat.global).text] else s
  }

  /** The slots after the cmd_replace loop has run over lines lo..j of the first n. */
  function Replaced(s: seq<string>, lo: int, j: int, n: int, pat: Pattern): (r: seq<string>)
    ensures |r| == |s|
    decreases j - lo + 1
  {
    if j < lo then s else ReplaceSlot(Replaced(s, lo, j - 1, n, pat), j, n, pat)
  }

  /** Slots from j on are not yet touched by the loop. */
  lemma {:induction false} ReplacedUntouched(s: seq<string>, lo: int, j: int, n: int, pat: Pattern, k: int)
    requires j <= k
    ensures 0 <= k < |s| ==> Replaced(s, lo, j, n, pat)[k] == s[k]
    decreases j - lo + 1
  {
    if j >= lo {
      ReplacedUntouched(s, lo, j - 1, n, pat, k);
      SlotUntouched(Replaced(s, lo, j - 1, n, pat), j, n, pat, k);
    }
  }

  /** replace_in_line on line i leaves every other slot alone. */
  lemma SlotUntouched(s: seq<string>, i: int, n: int, pat: Pattern, k: int)
    requires k != i - 1
    ensures 0 <= k < |s| ==> ReplaceSlot(s, i, n, pat)[k] == s[k]
  {
  }

  /** A slot below n in lo - 1 .. j - 1 holds its rewritten line; any other slot is as before. */
  lemma {:induction false} ReplacedAt(s: seq<string>, lo: int, j: int, n: int, pat: Pattern, k: int)
    requires 0 <= k < |s|
    ensures Replaced(s, lo, j, n, pat)[k] ==
      (if lo - 1 <= k < j && k < n then ReplaceResult(s[k], pat.oldp, pat.newp, pat.global).text else s[k])
    decreases j - lo + 1
  {
    if j >= lo {
      var t := Replaced(s, lo, j - 1, n, pat);
      assert Replaced(s, lo, j, n, pat) == ReplaceSlot(t, j, n, pat);
      ReplacedAt(s, lo, j - 1, n, pat, k);
      if k == j - 1 {
        ReplacedUntouched(s, lo, j - 1, n, pat, k);
        SlotAt(t, j, n, pat);
      } else {
        SlotUntouched(t, j, n, pat, k);
      }
    }
  }

  /** replace_in_line on an existing line i rewrites slot i - 1. */
  lemma SlotAt(s: seq<string>, i: int, n: int, pat: Pattern)
    requires 1 <= i <= |s|
    ensures ReplaceSlot(s, i, n, pat)[i - 1] ==
      (if i <= n then ReplaceResult(s[i - 1], pat.oldp, pat.newp, pat.global).text else s[i - 1])
  {
  }

  /**
   * One turn of the cmd_replace loop on line i: the count it adds is that of
   * line i of the old lines, and its slot update extends Replaced to i.
   */
  lemma ReplaceLoopStep(s: seq<string>, cur: seq<string>, lo: int, i: int, n: nat, pat: Pattern)
    requires n <= |s| && lo <= i && cur == Replaced(s, lo, i - 1, n, pat)
    ensures MadeOn(cur[..n], i, pat) == MadeOn(s[..n], i, pat)
    ensures ReplaceSlot(cur, i, n, pat) == Replaced(s, lo, i, n, pat)
    ensures ReplaceTotal(s[..n], lo, i, pat) == ReplaceTotal(s[..n], lo, i - 1, pat) + MadeOn(s[..n], i, pat)
  {
    ReplacedUntouched(s, lo, i - 1, n, pat, i - 1);
  }

  lemma ReplacedIsReplaceLines(s: seq<string>, lo: int, j: int, n: nat, pat: Pattern)
    requires n <= |s|
    ensures Replaced(s, lo, j, n, pat)[..n] == ReplaceLines(s[..n], lo, j, pat)
    ensures Replaced(s, lo, j, n, pat)[n..] == s[n..]
  {
    forall k | 0 <= k < |s| ensures Replaced(s, lo, j, n, pat)[k] ==
      (if lo - 1 <= k < j && k < n then ReplaceResult(s[k], pat.oldp, pat.newp, pat.global).text else s[k])
    {
      ReplacedAt(s, lo, j, n, pat, k);
    }
  }

  /** Replacements made on line i (1-based) of c, zero for a line that does not exist. */
  function MadeOn(c: seq<string>, i: int, pat: Pattern): (r: nat)
    ensures r <= ReplaceLimit && (!pat.global ==> r <= 1)
    ensures |pat.oldp| == 0 ==> r == 0
  {
    if 1 <= i <= |c| then ReplaceResult(c[i - 1], pat.oldp, pat.newp, pat.global).made else 0
  }

  /** The count cmd_replace prints: the replacements made on lines lo..j. */
  function ReplaceTotal(c: seq<string>, lo: int, j: int, pat: Pattern): (r: nat)
    ensures j < lo ==> r == 0
    ensures lo <= j ==> r >= MadeOn(c, j, pat)
    decreases j - lo + 1
  {
    if j < lo then 0 else ReplaceTotal(c, lo, j - 1, pat) + MadeOn(c, j, pat)
  }

  /**
   * The printed count is bounded by the lines in range: at most one per line
   * without g, at most ReplaceLimit per line with it, none for an empty old text.
   */
  lemma {:induction false} ReplaceTotalBounds(c: seq<string>, lo: int, j: int, pat: Pattern)
    requires lo <= j + 1
    ensures ReplaceTotal(c, lo, j, pat) <= ReplaceLimit * (j - lo + 1)
    ensures !pat.global ==> ReplaceTotal(c, lo, j, pat) <= j - lo + 1
    ensures |pat.oldp| == 0 ==> ReplaceTotal(c, lo, j, pat) == 0
    decreases j - lo + 1
  {
    if j >= lo {
      ReplaceTotalBounds(c, lo, j - 1, pat);
    }
  }

  /** The 0-based indices cmd_search prints for lines lo..j that contain pat, ignoring case. */
  function Matches(c: seq<string>, lo: int, j: int, pat: string): (r: seq<int>)
    ensures |r| <= if j < lo then 0 else j - lo + 1
    decreases j - lo + 1
  {
    if j < lo then []
    else Matches(c, lo, j - 1, pat) + (if 1 <= j <= |c| && StrCaseStrPos(c[j - 1], pat) >= 0 then [j - 1] else [])
  }

  /** Every hit is an existing line of lo..j that contains pat, ignoring case. */
  lemma {:induction false} MatchesSound(c: seq<string>, lo: int, j: int, pat: string)
    ensures forall h :: h in Matches(c, lo, j, pat) ==>
      lo - 1 <= h < j && 0 <= h < |c| && StrCaseStrPos(c[h], pat) >= 0
    decreases j - lo + 1
  {
    if j >= lo {
      MatchesSound(c, lo, j - 1, pat);
    }
  }

  /** Every existing line of lo..j that contains pat, ignoring case, is a hit. */
  lemma {:induction false} MatchesComplete(c: seq<string>, lo: int, j: int, pat: string)
    ensures forall k :: lo - 1 <= k < j && 0 <= k < |c| && StrCaseStrPos(c[k], pat) >= 0 ==>
      k in Matches(c, lo, j, pat)
    decreases j - lo + 1
  {
    if j >= lo {
      MatchesComplete(c, lo, j - 1, pat);
    }
  }

  /** The hits come in increasing line order, so none is reported twice. */
  lemma {:induction false} MatchesIncreasing(c: seq<string>, lo: int, j: int, pat: string)
    ensures forall x, y :: 0 <= x < y < |Matches(c, lo, j, pat)| ==>
      Matches(c, lo, j, pat)[x] < Matches(c, lo, j, pat)[y]
    decreases j - lo + 1
  {
    if j >= lo {
      MatchesIncreasing(c, lo, j - 1, pat);
      MatchesSound(c, lo, j - 1, pat);
      var p := Matches(c, lo, j - 1, pat);
      forall x | 0 <= x < |p| ensures p[x] < j - 1 {
        assert p[x] in p;
      }
    }
  }

  /** One more accepted line extends the spliced-in run by one. */
  lemma SpliceGrows(c: seq<string>, p: nat, acc: seq<string>, k: nat)
    requires p <= |c| && k < |acc|
    ensures var x := c[..p] + acc[..k] + c[p..];
      x[..p + k] + [acc[k]] + x[p + k..] == c[..p] + acc[..k + 1] + c[p..]
  {
    var x := c[..p] + acc[..k] + c[p..];
    assert x[..p + k] == c[..p] + acc[..k];
    assert x[p + k..] == c[p..];
    assert acc[..k + 1] == acc[..k] + [acc[k]];
  }

  /** The k-th input line ends the accepted run exactly when it chomps to ".". */
  lemma AcceptedStep(input: seq<string>, k: nat)
    requires k < |input| && k <= |UntilDot(input)|
    ensures Chomp(input[k]) == "." ==> k == |UntilDot(input)|
    ensures Chomp(input[k]) != "." ==> k < |UntilDot(input)| && UntilDot(input)[k] == Chomp(input[k])
  {
  }

  /** Stopping at the dot, or at a full store, leaves exactly the taken lines in. */
  lemma TakenPrefix(c: seq<string>, input: seq<string>, k: nat)
    requires |c| + k <= MaxLines && k <= |UntilDot(input)|
    requires k == |UntilDot(input)| || |c| + k == MaxLines
    ensures Taken(c, input) == UntilDot(input)[..k] && |Taken(c, input)| == k
  {
  }

  /** Replacing the line at row of c[..row + 1] + [b] + c[row + 1..] by a gives the split of that line. */
  lemma SplitSlices(c: seq<string>, row: nat, a: string, b: string)
    requires row < |c|
    ensures (c[..row + 1] + [b] + c[row + 1..])[row := a] == c[..row] + [a, b] + c[row + 1..]
  {
    var m := c[..row + 1] + [b] + c[row + 1..];
    assert c[..row + 1] == c[..row] + [c[row]];
  }

  /** The clamped bounds cmd_delete computes are those of DeleteSpan. */
  lemma DeleteSpanIs(c: seq<string>, a: int, b: int, lo: int, hi: int)
    requires |c| > 0
    requires var (a1, b1) := ToRangeDefaults(a, b, |c|);
      lo == (if a1 < 1 then 1 else a1) && hi == (if b1 > |c| then |c| else b1)
    ensures 1 <= lo <= hi <= |c| && DeleteSpan(c, a, b) == c[..lo - 1] + c[hi..]
  {
  }

  /** Freeing lines from..to - 1 and then closing their gap leaves the lines outside, in order. */
  lemma GapClosed(c: seq<string>, mid: seq<string>, r: seq<string>, from: nat, to: nat)
    requires from <= to <= |c| == |mid|
    requires mid[..from] == c[..from] && mid[to..] == c[to..]
    requires r == mid[..from] + mid[to..]
    ensures r == c[..from] + c[to..]
  {
  }

  /** The slots after the free_line loop over from..to - 1: those slots are empty, the others as in s. */
  function Freed(s: seq<string>, from: int, to: int): (r: seq<string>)
    ensures |r| == |s|
    ensures forall k :: 0 <= k < |s| ==> r[k] == if from <= k < to then "" else s[k]
  {
    seq(|s|, k requires 0 <= k < |s| => if from <= k < to then "" else s[k])
  }

  /** Storing text in the slot make_room opened at pos puts it between the two halves. */
  lemma Stored(c: seq<string>, mid: seq<string>, pos: nat, text: string)
    requires pos <= |c| && |mid| == |c| + 1
    requires mid[..pos] == c[..pos] && mid[pos + 1..] == c[pos..]
    ensures mid[pos := text] == c[..pos] + [text] + c[pos..]
  {
    var r := mid[pos := text];
    assert r[..pos] == mid[..pos] && r[pos + 1..] == mid[pos + 1..];
    assert r == r[..pos] + [text] + r[pos + 1..];
  }

  /** The position cmd_insert computes is InsertPosition, and the lines go in before it. */
  lemma InsertAt(c: seq<string>, n: int, input: seq<string>, m: int)
    requires |c| <= MaxLines && m == (if n < 1 || n > |c| + 1 then |c| + 1 else n)
    ensures m == InsertPosition(n, |c|)
    ensures InsertLines(c, n, input) == c[..m - 1] + Taken(c, input) + c[m - 1..]
  {
  }

  /** make_room's slot movement, seen on the lines below the count. */
  lemma ShiftedUp(o: seq<string>, s: seq<string>, pos: int, n: int, count: int)
    requires |o| == |s| && 0 <= pos && 0 < n && 0 <= count && count + n <= |o|
    requires forall i {:trigger s[i]} :: 0 <= i < |s| ==> s[i] == (if pos + n <= i < count + n then o[i - n] else o[i])
    ensures pos <= count ==> s[..count + n][..pos] == o[..count][..pos] && s[..count + n][pos + n..] == o[..count][pos..]
  {
    if pos <= count {
      assert s[..count + n][..pos] == s[..pos] && o[..count][..pos] == o[..pos];
      assert s[..count + n][pos + n..] == s[pos + n..count + n];
      assert o[..count][pos..] == o[pos..count];
    }
  }

  /** close_gap's slot movement, seen on the lines below the count. */
  lemma ShiftedDown(o: seq<string>, s: seq<string>, start: int, n: int, count: int)
    requires |o| == |s| && 0 <= start && 0 <= n && start + n <= count <= |o|
    requires forall i {:trigger s[i]} :: 0 <= i < |s| ==> s[i] == (if start <= i < count - n then o[i + n] else o[i])
    ensures s[..count - n] == o[..count][..start] + o[..count][start + n..]
  {
    assert o[..count][..start] == o[..start];
    assert o[..count][start + n..] == o[start + n..count];
    var t := o[..start] + o[start + n..count];
    forall k | 0 <= k < count - n ensures s[k] == t[k] {
      if k >= start {
        assert t[k] == o[k + n];
      }
    }
    assert s[..count - n] == t;
  }

  class Editor {
    var lines: array<string>
    var lineCount: nat
    var cursorRow: int
    var cursorCol: int
    var lastA: int
    var lastB: int

    /**
     * MaxLines slots, a line count within them, and every slot shorter than
     * LineLen; slots at or above the count keep stale copies that later
     * shifts may bring back.
     */
    predicate Valid()
      reads this`lines, this`lineCount, lines
    {
      lines.Length == MaxLines && lineCount <= MaxLines &&
      forall i :: 0 <= i < MaxLines ==> |lines[i]| < LineLen
    }

    /** The buffer: the lines below line_count. */
    function Contents(): (r: seq<string>)
      requires Valid()
      reads this`lines, this`lineCount, lines
      ensures |r| == lineCount && Bounded(r)
    {
      lines[..lineCount]
    }

    /** The cursor state as a CursorModel value. */
    function Snapshot(): (r: CursorModel.Buffer)
      requires Valid()
      reads this`lines, this`lineCount, this`cursorRow, this`cursorCol, lines
      ensures r.lines == Contents() && r.row == cursorRow && r.col == cursorCol
    {
      CursorModel.Buffer(Contents(), cursorRow, cursorCol)
    }

    /** The program's start: no lines, cursor at the origin, last_a = 1 and last_b = 0. */
    constructor ()
      ensures Valid() && fresh(lines)
      ensures Contents() == [] && cursorRow == 0 && cursorCol == 0 && lastA == 1 && lastB == 0
    {
      lines := new string[MaxLines](_ => "");
      lineCount := 0;
      cursorRow, cursorCol := 0, 0;
      lastA, lastB := 1, 0;
    }

    /**
     * make_room: open n slots at pos by moving slots pos..line_count-1 up by
     * n. Fails, changing nothing, when the store would exceed MaxLines; a
     * count n <= 0 succeeds without change.
     */
    method MakeRoom(pos: int, n: int) returns (ok: bool)
      requires Valid() && pos >= 0
      modifies this`lineCount, lines
      ensures Valid()
      ensures ok <==> n <= 0 || old(lineCount) + n <= MaxLines
      ensures lineCount == if ok && n > 0 then old(lineCount) + n else old(lineCount)
      ensures forall i :: 0 <= i < MaxLines ==>
        lines[i] == if ok && n > 0 && pos + n <= i < old(lineCount) + n then old(lines[i - n]) else old(lines[i])
      ensures ok && n > 0 && pos <= old(lineCount) ==>
        Contents()[..pos] == old(Contents())[..pos] && Contents()[pos + n..] == old(Contents())[pos..]
    {
      if n <= 0 {
        return true;
      }
      if lineCount + n > MaxLines {
        return false;
      }
      ghost var o, count := lines[..], lineCount;
      ShiftUp(pos, n);
      lineCount := lineCount + n;
      ok := true;
      ShiftedUp(o, lines[..], pos, n, count);
    }

    /** The copy loop of make_room, from the top down: slots pos..line_count - 1 move up by n. */
    method ShiftUp(pos: int, n: int)
      requires Valid() && pos >= 0 && n > 0 && lineCount + n <= MaxLines
      modifies lines
      ensures Valid()
      ensures forall i :: 0 <= i < MaxLines ==>
        lines[i] == (if pos + n <= i < lineCount + n then old(lines[i - n]) else old(lines[i]))
    {
      var i := lineCount - 1;
      while i >= pos
        invariant i <= lineCount - 1 && (i >= pos - 1 || i == lineCount - 1)
        invariant Valid()
        invariant forall k :: 0 <= k < MaxLines ==>
          lines[k] == (if i + n < k < lineCount + n then old(lines[k - n]) else old(lines[k]))
        decreases i
      {
        lines[i + n] := lines[i];
        i := i - 1;
      }
    }

    /** close_gap: move slots start+n.. down by n and drop n from the count. */
    method CloseGap(start: int, n: int)
      requires Valid() && 0 <= start && 0 <= n && start + n <= lineCount
      modifies this`lineCount, lines
      ensures Valid() && lineCount == old(lineCount) - n
      ensures forall i :: 0 <= i < MaxLines ==>
        lines[i] == if start <= i < old(lineCount) - n then old(lines[i + n]) else old(lines[i])
      ensures Contents() == old(Contents())[..start] + old(Contents())[start + n..]
    {
      ghost var o := lines[..];
      var i := start;
      while i + n < lineCount
        invariant lineCount == old(lineCount)
        invariant start <= i <= lineCount - n
        invariant forall k :: 0 <= k < MaxLines ==>
          lines[k] == if start <= k < i then old(lines[k + n]) else old(lines[k])
      {
        lines[i] := lines[i + n];
        i := i + 1;
      }
      ShiftedDown(o, lines[..], start, n, lineCount);
      lineCount := lineCount - n;
    }

    /** free_line: an index below line_count loses its text; any other index is ignored. */
    method FreeLine(idx: int)
      requires Valid()
      modifies lines
      ensures Valid()
      ensures forall i :: 0 <= i < MaxLines ==>
        lines[i] == if i == idx && idx < lineCount then "" else old(lines[i])
    {
      if 0 <= idx < lineCount {
        lines[idx] := "";
      }
    }

    /** ensure_line_exists: append empty lines up to index idx, as far as capacity allows. */
    method EnsureLineExists(idx: int)
      requires Valid()
      modifies this`lineCount, lines
      ensures Valid()
      ensures Contents() == Grow(old(Contents()), idx)
      ensures forall i :: 0 <= i < MaxLines && !(old(lineCount) <= i < lineCount) ==> lines[i] == old(lines[i])
    {
      ghost var c := Contents();
      while lineCount <= idx
        invariant Valid()
        invariant |c| <= lineCount && (lineCount <= idx + 1 || lineCount == |c|)
        invariant Contents() == c + Blanks(lineCount - |c|)
        invariant forall i :: 0 <= i < MaxLines && !(|c| <= i < lineCount) ==> lines[i] == old(lines[i])
        decreases MaxLines - lineCount
      {
        if lineCount >= MaxLines {
          return;
        }
        lines[lineCount] := "";
        lineCount := lineCount + 1;
      }
    }

    /**
     * cmd_delete: normalise the range, clamp its end to the line count and,
     * on a non-empty store, free those lines and close the gap; last_a is the
     * range start and last_b the line now there, or the last line.
     */
    method CmdDelete(a: int, b: int)
      requires Valid()
      modifies this`lineCount, this`lastA, this`lastB, lines
      ensures Valid()
      ensures Contents() == DeleteSpan(old(Contents()), a, b)
      ensures old(lineCount) == 0 ==> lastA == old(lastA) && lastB == old(lastB)
      ensures old(lineCount) > 0 ==>
        var lo := DeleteBounds(a, b, old(lineCount)).0;
        lastA == lo && lastB == if lo <= lineCount then lo else lineCount
    {
      var r := ToRangeDefaults(a, b, lineCount);
      var lo, hi := r.0, r.1;
      if lo < 1 {
        lo := 1;
      }
      if hi > lineCount {
        hi := lineCount;
      }
      if lineCount == 0 || lo > hi {
        return;
      }
      DeleteSpanIs(Contents(), a, b, lo, hi);
      RemoveLines(lo, hi);
      lastA := lo;
      lastB := if lo <= lineCount then lo else lineCount;
    }

    /** The body of cmd_delete for a clamped range lo..hi: free those lines, then close their gap. */
    method RemoveLines(lo: int, hi: int)
      requires Valid() && 1 <= lo <= hi <= lineCount
      modifies this`lineCount, lines
      ensures Valid()
      ensures Contents() == old(Contents())[..lo - 1] + old(Contents())[hi..]
    {
      ghost var c := Contents();
      FreeRange(lo - 1, hi);
      ghost var mid := Contents();
      CloseGap(lo - 1, hi - lo + 1);
      assert Contents() == mid[..lo - 1] + mid[hi..];
      GapClosed(c, mid, Contents(), lo - 1, hi);
    }

    /** The free_line loop of cmd_delete over slots from..to - 1: those slots become empty and the others keep their text. */
    method FreeRange(from: nat, to: nat)
      requires Valid() && from <= to <= lineCount
      modifies lines
      ensures Valid()
      ensures Contents()[..from] == old(Contents())[..from] && Contents()[to..] == old(Contents())[to..]
      ensures lines[..] == Freed(old(lines[..]), from, to)
    {
      var i := from;
      while i < to
        invariant Valid() && from <= i <= to
        invariant forall k :: 0 <= k < MaxLines ==> lines[k] == (if from <= k < i then "" else old(lines[k]))
      {
        FreeLine(i);
        i := i + 1;
      }
      assert Contents()[..from] == old(Contents())[..from];
      assert Contents()[to..] == old(Contents())[to..];
      assert lines[..] == Freed(old(lines[..]), from, to);
    }

    /** make_room(pos, 1) followed by storing text in the opened slot. */
    method PutLine(pos: int, text: string) returns (ok: bool)
      requires Valid() && 0 <= pos <= lineCount && |text| < LineLen
      modifies this`lineCount, lines
      ensures Valid()
      ensures ok <==> old(lineCount) < MaxLines
      ensures ok ==> Contents() == old(Contents())[..pos] + [text] + old(Contents())[pos..]
      ensures !ok ==> lineCount == old(lineCount) && Contents() == old(Contents())
    {
      ghost var c := Contents();
      ok := MakeRoom(pos, 1);
      if ok {
        ghost var mid := Contents();
        lines[pos] := text;
        assert Contents() == mid[pos := text];
        Stored(c, mid, pos, text);
      }
    }

    /**
     * cmd_insert with its input given: each element is what one fgets call
     * returned; after chomp, lines are put in before line n (clamped to
     * 1..count + 1) until a line that is exactly ".", the end of the input,
     * or a full store. last_a is the position and last_b the last line put in.
     */
    method CmdInsert(n: int, input: seq<string>)
      requires Valid()
      requires forall k :: 0 <= k < |input| ==> |input[k]| < LineLen
      modifies this`lineCount, this`lastA, this`lastB, lines
      ensures Valid()
      ensures Contents() == InsertLines(old(Contents()), n, input)
      ensures lastA == InsertPosition(n, old(lineCount))
      ensures lastB == lastA - 1 + (lineCount - old(lineCount))
    {
      var m := n;
      if m < 1 || m > lineCount + 1 {
        m := lineCount + 1;
      }
      ghost var c := Contents();
      InsertAt(c, n, input, m);
      var pos := InsertRun(m - 1, input);
      ghost var d := Contents();
      assert d == InsertLines(c, n, input);
      lastA, lastB := m, pos;
      assert Contents() == d;
    }

    /** The read loop of cmd_insert: the taken input lines go in at slot p, in order. */
    method InsertRun(p: nat, input: seq<string>) returns (pos: nat)
      requires Valid() && p <= lineCount
      requires forall k :: 0 <= k < |input| ==> |input[k]| < LineLen
      modifies this`lineCount, lines
      ensures Valid()
      ensures pos == p + |Taken(old(Contents()), input)|
      ensures Contents() == old(Contents())[..p] + Taken(old(Contents()), input) + old(Contents())[p..]
    {
      ghost var c := Contents();
      ghost var acc := UntilDot(input);
      pos := p;
      var k := 0;
      while k < |input|
        invariant Valid()
        invariant 0 <= k <= |acc| && pos == p + k
        invariant lineCount == |c| + k
        invariant Contents() == c[..p] + acc[..k] + c[p..]
      {
        var buf := Chomp(input[k]);
        AcceptedStep(input, k);
        if buf == "." {
          assert k == |acc|;
          break;
        }
        assert |buf| <= |input[k]| && buf == acc[k];
        ghost var x := Contents();
        var ok := PutLine(pos, buf);
        if !ok {
          assert |c| + k == MaxLines;
          break;
        }
        assert Contents() == x[..p + k] + [acc[k]] + x[p + k..];
        SpliceGrows(c, p, acc, k);
        pos := pos + 1;
        k := k + 1;
      }
      TakenPrefix(c, input, k);
      assert Taken(c, input) == acc[..k];
    }

    /** One pass of the cmd_replace loop: replace_in_line on line i when that line exists. */
    method ReplaceLine(i: int, pat: Pattern) returns (made: nat)
      requires Valid()
      modifies lines
      ensures Valid()
      ensures made == MadeOn(old(Contents()), i, pat)
      ensures lines[..] == ReplaceSlot(old(lines[..]), i, lineCount, pat)
    {
      made := 0;
      if 1 <= i <= lineCount {
        var s;
        s, made := ReplaceInLine(lines[i - 1], pat.oldp, pat.newp, pat.global);
        lines[i - 1] := s;
      }
    }

    /**
     * The line loop of cmd_replace for an already parsed pattern: normalise
     * the range, run replace_in_line on every line of it that exists, return
     * the number of replacements and remember the normalised range.
     */
    method ReplaceRange(a: int, b: int, pat: Pattern) returns (total: nat)
      requires Valid()
      modifies lines, this`lastA, this`lastB
      ensures Valid()
      ensures var (lo, hi) := ToRangeDefaults(a, b, lineCount);
        Contents() == ReplaceLines(old(Contents()), lo, hi, pat) &&
        total == ReplaceTotal(old(Contents()), lo, hi, pat) &&
        lastA == lo && lastB == hi
      ensures lines[lineCount..] == old(lines[lineCount..])
    {
      ghost var c := Contents();
      ghost var s0 := lines[..];
      var r := ToRangeDefaults(a, b, lineCount);
      var lo, hi := r.0, r.1;
      total := ReplaceLoop(lo, hi, pat);
      ReplacedIsReplaceLines(s0, lo, hi, lineCount, pat);
      assert Contents() == lines[..][..lineCount] && c == s0[..lineCount];
      lastA, lastB := lo, hi;
    }

    /** The loop itself, over lines lo..hi: the slots as Replaced says and the summed count. */
    method ReplaceLoop(lo: int, hi: int, pat: Pattern) returns (total: nat)
      requires Valid()
      modifies lines
      ensures Valid()
      ensures lines[..] == Replaced(old(lines[..]), lo, hi, lineCount, pat)
      ensures total == ReplaceTotal(old(Contents()), lo, hi, pat)
    {
      ghost var s0 := lines[..];
      total := 0;
      var i := lo;
      while i <= hi
        invariant Valid()
        invariant lo <= i && (i <= hi + 1 || i == lo)
        invariant lines[..] == Replaced(s0, lo, i - 1, lineCount, pat)
        invariant total == ReplaceTotal(s0[..lineCount], lo, i - 1, pat)
      {
        total := ReplaceTurn(s0, lo, i, pat, total);
        i := i + 1;
      }
    }

    /** One turn of that loop: replace_in_line on line i, its count added to total. */
    method ReplaceTurn(ghost s0: seq<string>, lo: int, i: int, pat: Pattern, total: nat) returns (total': nat)
      requires Valid() && lo <= i && lineCount <= |s0|
      requires lines[..] == Replaced(s0, lo, i - 1, lineCount, pat)
      requires total == ReplaceTotal(s0[..lineCount], lo, i - 1, pat)
      modifies lines
      ensures Valid()
      ensures lines[..] == Replaced(s0, lo, i, lineCount, pat)
      ensures total' == ReplaceTotal(s0[..lineCount], lo, i, pat)
    {
      ghost var cur := lines[..];
      ReplaceLoopStep(s0, cur, lo, i, lineCount, pat);
      assert Contents() == cur[..lineCount];
      var made := ReplaceLine(i, pat);
      total' := total + made;
    }

    /**
     * cmd_replace: parse the spec, reporting a syntax error (None) without
     * any change, then replace over the range. The spec is read with the
     * shared-delimiter parser, so the form /old/new/[g] of the usage message works.
     */
    method CmdReplace(a: int, b: int, spec: string) returns (total: Option<nat>)
      requires Valid()
      modifies lines, this`lastA, this`lastB
      ensures Valid()
      ensures total.None? <==> ParseReplaceSpecShared(spec).None?
      ensures total.None? ==> Contents() == old(Contents()) && lastA == old(lastA) && lastB == old(lastB)
      ensures total.Some? ==> var pat := ParseReplaceSpecShared(spec).value;
        var (lo, hi) := ToRangeDefaults(a, b, lineCount);
        Contents() == ReplaceLines(old(Contents()), lo, hi, pat) &&
        total.value == ReplaceTotal(old(Contents()), lo, hi, pat) &&
        lastA == lo && lastB == hi
    {
      match ParseReplaceSpecShared(spec)
      case None =>
        return None;
      case Some(pat) =>
        var t := ReplaceRange(a, b, pat);
        return Some(t);
    }

    /**
     * cmd_replace as the program has it: the spec is read by the parser that
     * starts the new text after the old text's closing '/', so /old/new/[g]
     * is a syntax error and /old//new/[g] is what it accepts.
     */
    method CmdReplaceAsWritten(a: int, b: int, spec: string) returns (total: Option<nat>)
      requires Valid()
      modifies lines, this`lastA, this`lastB
      ensures Valid()
      ensures total.None? <==> ParseReplaceSpec(spec).None?
      ensures total.None? ==> Contents() == old(Contents()) && lastA == old(lastA) && lastB == old(lastB)
      ensures total.Some? ==> var pat := ParseReplaceSpec(spec).value;
        var (lo, hi) := ToRangeDefaults(a, b, lineCount);
        Contents() == ReplaceLines(old(Contents()), lo, hi, pat) &&
        total.value == ReplaceTotal(old(Contents()), lo, hi, pat) &&
        lastA == lo && lastB == hi
    {
      match ParseReplaceSpec(spec)
      case None =>
        return None;
      case Some(pat) =>
        var t := ReplaceRange(a, b, pat);
        return Some(t);
    }

    /**
     * The line loop of cmd_search: the 0-based indices of the lines of the
     * normalised range that contain pat, ignoring ASCII case, in order.
     */
    method SearchRange(a: int, b: int, pat: string) returns (hits: seq<int>)
      requires Valid()
      ensures var (lo, hi) := ToRangeDefaults(a, b, lineCount);
        hits == Matches(Contents(), lo, hi, pat)
    {
      ghost var c := Contents();
      var r := ToRangeDefaults(a, b, lineCount);
      var lo, hi := r.0, r.1;
      hits := [];
      var i := lo;
      while i <= hi
        invariant lo <= i && (i <= hi + 1 || i == lo)
        invariant hits == Matches(c, lo, i - 1, pat)
      {
        var hit := 1 <= i <= lineCount && StrCaseStrPos(lines[i - 1], pat) >= 0;
        assert hit == (1 <= i <= |c| && StrCaseStrPos(c[i - 1], pat) >= 0);
        if hit {
          hits := hits + [i - 1];
        }
        i := i + 1;
      }
    }

    /**
     * cmd_search: parse the spec, None on a '/' without its closing '/',
     * else the hits of the range loop, remembering the normalised range.
     */
    method CmdSearch(a: int, b: int, spec: string) returns (hits: Option<seq<int>>)
      requires Valid()
      modifies this`lastA, this`lastB
      ensures hits.None? <==> ParseSearchSpec(spec).None?
      ensures hits.None? ==> lastA == old(lastA) && lastB == old(lastB)
      ensures hits.Some? ==> var (lo, hi) := ToRangeDefaults(a, b, lineCount);
        hits.value == Matches(Contents(), lo, hi, ParseSearchSpec(spec).value) &&
        lastA == lo && lastB == hi
    {
      match ParseSearchSpec(spec)
      case None =>
        return None;
      case Some(pat) =>
        var found := SearchRange(a, b, pat);
        var r := ToRangeDefaults(a, b, lineCount);
        lastA, lastB := r.0, r.1;
        return Some(found);
    }

    /** insert_char, performed on the slots: the CursorModel edit of the same name. */
    method InsertChar(c: char)
      requires Valid() && 0 <= cursorRow < MaxLines && 0 <= cursorCol
      modifies this`lineCount, this`cursorCol, lines
      ensures Valid()
      ensures Snapshot() == CursorModel.InsertChar(old(Snapshot()), c)
    {
      ghost var b := Snapshot();
      EnsureLineExists(cursorRow);
      var line := lines[cursorRow];
      if cursorCol > |line| {
        cursorCol := |line|;
      }
      if |line| >= LineLen - 1 {
        return;
      }
      lines[cursorRow] := line[..cursorCol] + [c] + line[cursorCol..];
      cursorCol := cursorCol + 1;
    }

    /** delete_char, performed on the slots: the join frees the next line and closes its gap. */
    method DeleteChar()
      requires Valid() && 0 <= cursorRow && 0 <= cursorCol
      modifies this`lineCount, lines
      ensures Valid()
      ensures Snapshot() == CursorModel.DeleteChar(old(Snapshot()))
    {
      if cursorRow >= lineCount {
        return;
      }
      var line := lines[cursorRow];
      if cursorCol >= |line| {
        if cursorRow + 1 < lineCount {
          var next := lines[cursorRow + 1];
          if |line| + |next| < LineLen {
            JoinLines(cursorRow);
          }
        }
      } else {
        lines[cursorRow] := line[..cursorCol] + line[cursorCol + 1..];
      }
    }

    /** The join of delete_char: line row takes the next line's text, which is freed and its gap closed. */
    method JoinLines(row: nat)
      requires Valid() && row + 1 < lineCount && |lines[row]| + |lines[row + 1]| < LineLen
      modifies this`lineCount, lines
      ensures Valid()
      ensures var c := old(Contents());
        Contents() == c[..row] + [c[row] + c[row + 1]] + c[row + 2..]
    {
      ghost var c := Contents();
      var line, next := lines[row], lines[row + 1];
      lines[row] := line + next;
      FreeLine(row + 1);
      ghost var mid := Contents();
      assert mid[..row + 1] == c[..row] + [line + next];
      assert mid[row + 2..] == c[row + 2..];
      CloseGap(row + 1, 1);
    }

    /** backspace_char: step left (or to the end of the previous line) and delete there. */
    method BackspaceChar()
      requires Valid() && 0 <= cursorRow && 0 <= cursorCol
      requires cursorCol == 0 && cursorRow > 0 ==> cursorRow - 1 < lineCount
      modifies this`lineCount, this`cursorRow, this`cursorCol, lines
      ensures Valid()
      ensures Snapshot() == CursorModel.Backspace(old(Snapshot()))
    {
      if cursorCol > 0 {
        cursorCol := cursorCol - 1;
        DeleteChar();
      } else if cursorRow > 0 {
        cursorRow := cursorRow - 1;
        cursorCol := |lines[cursorRow]|;
        DeleteChar();
      }
    }

    /** The split of insert_newline on a store with room: line row becomes its halves at col. */
    method SplitLine(row: nat, col: nat)
      requires Valid() && row < lineCount < MaxLines && col <= |lines[row]|
      modifies this`lineCount, lines
      ensures Valid()
      ensures var line := old(Contents())[row];
        Contents() == old(Contents())[..row] + [line[..col], line[col..]] + old(Contents())[row + 1..]
    {
      ghost var c := Contents();
      var line := lines[row];
      var ok := PutLine(row + 1, line[col..]);
      ghost var mid := Contents();
      lines[row] := line[..col];
      assert Contents() == mid[row := line[..col]];
      SplitSlices(c, row, line[..col], line[col..]);
    }

    /** insert_newline, performed on the slots: make_room below the line, then split it. */
    method InsertNewline()
      requires Valid() && 0 <= cursorRow < MaxLines && 0 <= cursorCol
      modifies this`lineCount, this`cursorRow, this`cursorCol, lines
      ensures Valid()
      ensures Snapshot() == CursorModel.InsertNewline(old(Snapshot()))
    {
      ghost var b := Snapshot();
      EnsureLineExists(cursorRow);
      ghost var ls := Contents();
      assert ls == Grow(b.lines, b.row);
      var line := lines[cursorRow];
      assert line == ls[b.row];
      if cursorCol > |line| {
        cursorCol := |line|;
      }
      assert cursorCol == CursorModel.Clamp(b.col, |line|);
      if lineCount >= MaxLines {
        return;
      }
      SplitLine(cursorRow, cursorCol);
      cursorRow := cursorRow + 1;
      cursorCol := 0;
    }
  }
}
