/**
 * The line store as a value: the sequence of lines below line_count, and what
 * the store operations and the D and I commands make of it. The class
 * Editing.Editor performs these on its array and is proved against them.
 */
module Store {
  import opened Base
  import opened Chars
  import opened Ranges

  /** The store invariant: at most MaxLines lines, each shorter than LineLen. */
  predicate Bounded(ls: seq<string>) {
    |ls| <= MaxLines && forall i :: 0 <= i < |ls| ==> |ls[i]| < LineLen
  }

  function Blanks(n: nat): (r: seq<string>)
    ensures |r| == n
    ensures forall k :: 0 <= k < n ==> r[k] == ""
  {
    if n == 0 then [] else Blanks(n - 1) + [""]
  }

  /**
   * ensure_line_exists: append empty lines until index idx exists, stopping
   * silently at capacity; a store already long enough is left alone.
   */
  function Grow(ls: seq<string>, idx: int): (r: seq<string>)
    requires |ls| <= MaxLines
    ensures |r| == if idx < |ls| then |ls| else if idx + 1 <= MaxLines then idx + 1 else MaxLines
    ensures r[..|ls|] == ls
    ensures forall k :: |ls| <= k < |r| ==> r[k] == ""
    ensures Bounded(ls) ==> Bounded(r)
    ensures 0 <= idx < MaxLines ==> idx < |r|
  {
    if idx < |ls| then ls
    else
      var n := if idx + 1 <= MaxLines then idx + 1 else MaxLines;
      ls + Blanks(n - |ls|)
  }

  /**
   * The range cmd_delete removes: to_range_defaults, then the end clamped to
   * the line count.
   */
  function DeleteBounds(a: int, b: int, count: nat): (r: (int, int))
    ensures r.0 >= 1
    ensures count > 0 ==> 1 <= r.0 <= r.1 <= count
    ensures count == 0 ==> r.1 == 0
  {
    var (a1, b1) := ToRangeDefaults(a, b, count);
    (if a1 < 1 then 1 else a1, if b1 > count then count else b1)
  }

  /**
   * cmd_delete on the lines: nothing on an empty store; otherwise the lines
   * of the clamped range a..b (1-based, inclusive) are removed.
   */
  function DeleteSpan(c: seq<string>, a: int, b: int): (r: seq<string>)
    ensures |c| == 0 ==> r == c
    ensures |c| > 0 ==>
      var (lo, hi) := DeleteBounds(a, b, |c|);
      |r| == |c| - (hi - lo + 1) && r == c[..lo - 1] + c[hi..]
  {
    var (lo, hi) := DeleteBounds(a, b, |c|);
    if |c| == 0 || lo > hi then c else c[..lo - 1] + c[hi..]
  }

  /** Deleting keeps the store invariant. */
  lemma DeleteSpanBounded(c: seq<string>, a: int, b: int)
    requires Bounded(c)
    ensures Bounded(DeleteSpan(c, a, b))
  {
    var r := DeleteSpan(c, a, b);
    if |c| > 0 {
      var (lo, hi) := DeleteBounds(a, b, |c|);
      assert forall i :: 0 <= i < |r| ==> r[i] == if i < lo - 1 then c[i] else c[i + hi - lo + 1];
    }
  }

  /** D with no argument reaches parse_range("") and so removes every line. */
  lemma DeleteWithoutArgumentClears(c: seq<string>)
    ensures ParseRange("", |c|) == Some((1, |c| as int))
    ensures DeleteSpan(c, 1, |c|) == []
  {
  }

  /**
   * A start beyond the last line is swapped into range: on a non-empty store
   * D n with n > count removes the last line.
   */
  lemma DeleteBeyondEndRemovesLast(c: seq<string>, n: int)
    requires |c| > 0 && n > |c|
    ensures DeleteSpan(c, n, n) == c[..|c| - 1]
  {
  }

  /** The position cmd_insert uses: n when 1 <= n <= count + 1, else count + 1. */
  function InsertPosition(n: int, count: nat): (r: int)
    ensures 1 <= r <= count + 1
    ensures 1 <= n <= count + 1 ==> r == n
  {
    if n < 1 || n > count + 1 then count + 1 else n
  }

  /**
   * The lines cmd_insert accepts from its input, each input element being
   * one fgets result: the chomped elements before the first one that chomps
   * to exactly ".", or all of them when the input ends first.
   */
  function UntilDot(input: seq<string>): (r: seq<string>)
    ensures |r| <= |input|
    ensures forall j :: 0 <= j < |r| ==> r[j] == Chomp(input[j]) && r[j] != "."
    ensures |r| < |input| ==> Chomp(input[|r|]) == "."
  {
    if input == [] || Chomp(input[0]) == "." then [] else [Chomp(input[0])] + UntilDot(input[1..])
  }

  /** Of the accepted lines, those that still fit: make_room fails once the store is full. */
  function Taken(c: seq<string>, input: seq<string>): (r: seq<string>)
    requires |c| <= MaxLines
    ensures r <= UntilDot(input) && |c| + |r| <= MaxLines
  {
    var acc := UntilDot(input);
    if |acc| <= MaxLines - |c| then acc else acc[..MaxLines - |c|]
  }

  /** Every accepted line is taken while they fit; otherwise exactly the free slots are filled. */
  lemma TakenFills(c: seq<string>, input: seq<string>)
    requires |c| <= MaxLines
    ensures |UntilDot(input)| <= MaxLines - |c| ==> Taken(c, input) == UntilDot(input)
    ensures |UntilDot(input)| > MaxLines - |c| ==> |c| + |Taken(c, input)| == MaxLines
  {
  }

  /**
   * cmd_insert on the lines: the taken input lines spliced in before line
   * n (clamped to 1..count + 1).
   */
  function InsertLines(c: seq<string>, n: int, input: seq<string>): (r: seq<string>)
    requires |c| <= MaxLines
    ensures |r| == |c| + |Taken(c, input)| && |r| <= MaxLines
  {
    var p := InsertPosition(n, |c|) - 1;
    c[..p] + Taken(c, input) + c[p..]
  }

  /** Deleting the span that an insert just added restores the store line for line. */
  lemma InsertThenDelete(c: seq<string>, n: int, input: seq<string>)
    requires |c| <= MaxLines && |Taken(c, input)| > 0
    ensures var p := InsertPosition(n, |c|);
      DeleteSpan(InsertLines(c, n, input), p, p + |Taken(c, input)| - 1) == c
  {
    SpliceThenDelete(c, InsertPosition(n, |c|), Taken(c, input));
  }

  lemma SpliceThenDelete(c: seq<string>, p: int, t: seq<string>)
    requires 1 <= p <= |c| + 1 && |t| > 0
    ensures DeleteSpan(c[..p - 1] + t + c[p - 1..], p, p + |t| - 1) == c
  {
    var r := c[..p - 1] + t + c[p - 1..];
    var (lo, hi) := DeleteBounds(p, p + |t| - 1, |r|);
    assert (lo, hi) == (p, p + |t| - 1);
    assert r[..p - 1] == c[..p - 1];
    assert r[p + |t| - 1..] == c[p - 1..];
    assert c[..p - 1] + c[p - 1..] == c;
  }

  /** Insertion beyond the end appends. */
  lemma InsertBeyondEndAppends(c: seq<string>, n: int, input: seq<string>)
    requires |c| <= MaxLines && n > |c| + 1
    ensures InsertLines(c, n, input) == c + Taken(c, input)
  {
    assert c[..|c|] == c;
  }

  /** I 2 on ["one", "two"] with the input "inserted", "." gives ["one", "inserted", "two"]. */
  lemma InsertScenario()
    ensures InsertLines(["one", "two"], 2, ["inserted", "."]) == ["one", "inserted", "two"]
  {
    assert Chomp("inserted") == "inserted";
    assert Chomp(".") == ".";
    assert UntilDot(["inserted", "."]) == ["inserted"] by {
      assert ["inserted", "."][1..] == ["."];
    }
  }
}
