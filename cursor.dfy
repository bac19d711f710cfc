/**
 * The full-screen editor's edits as functions on a value: the lines below
 * line_count together with cursor_row and cursor_col. Editing.Editor runs
 * the same edits on its array and is proved equal to these.
 */
module CursorModel {
  import opened Base
  import opened Store

  datatype Buffer = Buffer(lines: seq<string>, row: int, col: int)

  /**
   * What the full-screen loop keeps: a bounded, non-empty store, the cursor
   * on an existing line and at most one column past its last character.
   */
  predicate WellFormed(b: Buffer) {
    Bounded(b.lines) && 0 <= b.row < |b.lines| && 0 <= b.col <= |b.lines[b.row]|
  }

  function Clamp(col: int, len: nat): (r: int)
    ensures r <= len && (col <= len ==> r == col) && (col > len ==> r == len)
  {
    if col > len then len else col
  }

  /**
   * insert_char: make the cursor's line exist, pull the column back to the
   * line's end, and unless the line already holds LineLen - 1 characters put
   * c at the column and step right.
   */
  function InsertChar(b: Buffer, c: char): (r: Buffer)
    requires 0 <= b.row < MaxLines && 0 <= b.col && |b.lines| <= MaxLines
    ensures r.row == b.row && b.row < |r.lines| && |r.lines| <= MaxLines
  {
    var ls := Grow(b.lines, b.row);
    var line := ls[b.row];
    var col := Clamp(b.col, |line|);
    if |line| >= LineLen - 1 then Buffer(ls, b.row, col)
    else Buffer(ls[b.row := line[..col] + [c] + line[col..]], b.row, col + 1)
  }

  /**
   * On a line that already holds LineLen - 1 characters insert_char refuses
   * the character: the line is made to exist and the column pulled back to
   * its end, and nothing else changes.
   */
  lemma InsertCharFullLine(b: Buffer, c: char)
    requires 0 <= b.row < MaxLines && 0 <= b.col && |b.lines| <= MaxLines
    requires |Grow(b.lines, b.row)[b.row]| >= LineLen - 1
    ensures var ls := Grow(b.lines, b.row);
      InsertChar(b, c) == Buffer(ls, b.row, Clamp(b.col, |ls[b.row]|))
  {
  }

  /**
   * On a shorter line c lands at the clamped column, the characters before
   * it and after it are those of the old line, every other line is kept and
   * the cursor steps past c.
   */
  lemma InsertCharPlaces(b: Buffer, c: char)
    requires 0 <= b.row < MaxLines && 0 <= b.col && |b.lines| <= MaxLines
    requires |Grow(b.lines, b.row)[b.row]| < LineLen - 1
    ensures var ls := Grow(b.lines, b.row);
      var line := ls[b.row];
      var col := Clamp(b.col, |line|);
      var r := InsertChar(b, c);
      |r.lines| == |ls| && r.row == b.row && r.col == col + 1 &&
      |r.lines[b.row]| == |line| + 1 && r.lines[b.row][col] == c &&
      r.lines[b.row][..col] == line[..col] && r.lines[b.row][col + 1..] == line[col..] &&
      forall k :: 0 <= k < |ls| && k != b.row ==> r.lines[k] == ls[k]
  {
    var ls := Grow(b.lines, b.row);
    var line := ls[b.row];
    var col := Clamp(b.col, |line|);
    var t := line[..col] + [c] + line[col..];
    assert t[..col] == line[..col];
    assert t[col + 1..] == line[col..];
  }

  /**
   * delete_char: beyond the last line nothing happens; inside the line the
   * character under the cursor goes; at or past its end the next line is
   * appended, unless there is none or the joined line would reach LineLen.
   * The cursor never moves.
   */
  function DeleteChar(b: Buffer): (r: Buffer)
    requires 0 <= b.row && 0 <= b.col
    ensures r.row == b.row && r.col == b.col
    ensures b.row >= |b.lines| ==> r == b
  {
    if b.row >= |b.lines| then b
    else
      var line := b.lines[b.row];
      if b.col >= |line| then
        if b.row + 1 < |b.lines| && |line| + |b.lines[b.row + 1]| < LineLen then
          b.(lines := b.lines[..b.row] + [line + b.lines[b.row + 1]] + b.lines[b.row + 2..])
        else b
      else b.(lines := b.lines[b.row := line[..b.col] + line[b.col + 1..]])
  }

  /**
   * backspace_char: step left and delete; at column 0 go to the end of the
   * previous line first and delete there, which joins the two lines.
   */
  function Backspace(b: Buffer): (r: Buffer)
    requires 0 <= b.row && 0 <= b.col
    requires b.col == 0 && b.row > 0 ==> b.row - 1 < |b.lines|
    ensures b.col > 0 ==> r.row == b.row && r.col == b.col - 1
  {
    if b.col > 0 then DeleteChar(b.(col := b.col - 1))
    else if b.row > 0 then DeleteChar(Buffer(b.lines, b.row - 1, |b.lines[b.row - 1]|))
    else b
  }

  /**
   * insert_newline: make the cursor's line exist, clamp the column and, when
   * the store has room, split the line at the column into two lines and put
   * the cursor at the start of the second.
   */
  function InsertNewline(b: Buffer): (r: Buffer)
    requires 0 <= b.row < MaxLines && 0 <= b.col && |b.lines| <= MaxLines
    ensures |r.lines| <= MaxLines
  {
    var ls := Grow(b.lines, b.row);
    var line := ls[b.row];
    var col := Clamp(b.col, |line|);
    if |ls| >= MaxLines then Buffer(ls, b.row, col)
    else Buffer(ls[..b.row] + [line[..col], line[col..]] + ls[b.row + 1..], b.row + 1, 0)
  }

  /** Every edit keeps the full-screen loop's invariant. */
  lemma EditsKeepWellFormed(b: Buffer, c: char)
    requires WellFormed(b)
    ensures WellFormed(InsertChar(b, c))
    ensures WellFormed(DeleteChar(b))
    ensures WellFormed(Backspace(b))
    ensures WellFormed(InsertNewline(b))
  {
    InsertCharKeepsWellFormed(b, c);
    DeleteKeepsWellFormed(b);
    if b.col > 0 {
      DeleteKeepsWellFormed(b.(col := b.col - 1));
    } else if b.row > 0 {
      DeleteKeepsWellFormed(Buffer(b.lines, b.row - 1, |b.lines[b.row - 1]|));
    }
    NewlineKeepsWellFormed(b);
  }

  lemma InsertCharKeepsWellFormed(b: Buffer, c: char)
    requires WellFormed(b)
    ensures WellFormed(InsertChar(b, c))
  {
    var line := b.lines[b.row];
    var r := InsertChar(b, c);
    if |line| < LineLen - 1 {
      assert r.lines == b.lines[b.row := line[..b.col] + [c] + line[b.col..]];
      assert forall i :: 0 <= i < |r.lines| ==> |r.lines[i]| < LineLen;
    }
  }

  lemma NewlineKeepsWellFormed(b: Buffer)
    requires WellFormed(b)
    ensures WellFormed(InsertNewline(b))
  {
    var ls := b.lines;
    var line := ls[b.row];
    var n := InsertNewline(b);
    if |ls| < MaxLines {
      assert n.lines == ls[..b.row] + [line[..b.col], line[b.col..]] + ls[b.row + 1..];
      forall i | 0 <= i < |n.lines| ensures |n.lines[i]| < LineLen {
        if i > b.row + 1 {
          assert n.lines[i] == ls[i - 1];
        }
      }
    }
  }

  lemma DeleteKeepsWellFormed(b: Buffer)
    requires Bounded(b.lines) && 0 <= b.row < |b.lines| && 0 <= b.col <= |b.lines[b.row]|
    ensures WellFormed(DeleteChar(b))
  {
    var ls := b.lines;
    var line := ls[b.row];
    var r := DeleteChar(b);
    if b.col >= |line| {
      if b.row + 1 < |ls| && |line| + |ls[b.row + 1]| < LineLen {
        assert forall i :: 0 <= i < |r.lines| ==> r.lines[i] == if i < b.row then ls[i] else if i == b.row then line + ls[b.row + 1] else ls[i + 1];
      }
    } else {
      assert forall i :: 0 <= i < |r.lines| ==> |r.lines[i]| < LineLen;
    }
  }

  /** Typing a character and then backspacing restores the buffer. */
  lemma InsertCharThenBackspace(b: Buffer, c: char)
    requires WellFormed(b) && |b.lines[b.row]| < LineLen - 1
    ensures Backspace(InsertChar(b, c)) == b
  {
    var line := b.lines[b.row];
    var t := line[..b.col] + [c] + line[b.col..];
    assert t[..b.col] + t[b.col + 1..] == line;
    assert b.lines[b.row := line] == b.lines;
  }

  /**
   * Enter splits the cursor's line in two: one more line, the halves
   * concatenate to the old line, and the cursor is at the start of the
   * second half.
   */
  lemma NewlineSplits(b: Buffer)
    requires WellFormed(b) && |b.lines| < MaxLines
    ensures var r := InsertNewline(b);
      |r.lines| == |b.lines| + 1 && r.row == b.row + 1 && r.col == 0 &&
      r.lines[b.row] + r.lines[b.row + 1] == b.lines[b.row] &&
      r.lines[..b.row] == b.lines[..b.row] && r.lines[b.row + 2..] == b.lines[b.row + 1..]
  {
    var ls := b.lines;
    var line := ls[b.row];
    var r := InsertNewline(b);
    assert r.lines == ls[..b.row] + [line[..b.col], line[b.col..]] + ls[b.row + 1..];
    assert r.lines[b.row + 2..] == ls[b.row + 1..];
  }

  /**
   * On a full store insert_newline refuses the split: the line is made to
   * exist and the column pulled back to its end, and nothing else changes.
   */
  lemma NewlineFull(b: Buffer)
    requires 0 <= b.row < MaxLines && 0 <= b.col && |b.lines| <= MaxLines
    requires |Grow(b.lines, b.row)| >= MaxLines
    ensures var ls := Grow(b.lines, b.row);
      InsertNewline(b) == Buffer(ls, b.row, Clamp(b.col, |ls[b.row]|))
  {
  }

  /**
   * With room in the store Enter splits the line that insert_newline made to
   * exist at the clamped column: the first half is exactly the characters
   * before that column, the halves concatenate to the line, the other lines
   * are kept, and the cursor goes to the start of the second half.
   */
  lemma NewlineSplitsGrown(b: Buffer)
    requires 0 <= b.row < MaxLines && 0 <= b.col && |b.lines| <= MaxLines
    requires |Grow(b.lines, b.row)| < MaxLines
    ensures var ls := Grow(b.lines, b.row);
      var line := ls[b.row];
      var col := Clamp(b.col, |line|);
      var r := InsertNewline(b);
      |r.lines| == |ls| + 1 && r.row == b.row + 1 && r.col == 0 &&
      |r.lines[b.row]| == col && r.lines[b.row] + r.lines[b.row + 1] == line &&
      r.lines[..b.row] == ls[..b.row] && r.lines[b.row + 2..] == ls[b.row + 1..]
  {
    var ls := Grow(b.lines, b.row);
    var line := ls[b.row];
    var col := Clamp(b.col, |line|);
    var r := InsertNewline(b);
    assert r.lines == ls[..b.row] + [line[..col], line[col..]] + ls[b.row + 1..];
    assert r.lines[b.row + 2..] == ls[b.row + 1..];
  }

  /** Enter then backspace is the identity: the split line is joined back. */
  lemma NewlineThenBackspace(b: Buffer)
    requires WellFormed(b) && |b.lines| < MaxLines
    ensures Backspace(InsertNewline(b)) == b
  {
    var ls := b.lines;
    var line := ls[b.row];
    var n := InsertNewline(b);
    NewlineSplits(b);
    var m := Buffer(n.lines, b.row, b.col);
    assert Backspace(n) == DeleteChar(m);
    assert n.lines[b.row] == line[..b.col] && n.lines[b.row + 1] == line[b.col..];
    assert line[..b.col] + line[b.col..] == line;
    var d := DeleteChar(m);
    assert d.lines == n.lines[..b.row] + [line] + n.lines[b.row + 2..];
    assert d.lines == ls;
  }

  /**
   * At or past the end of a line that has a successor, delete joins the two
   * exactly when the result stays below LineLen; otherwise nothing changes.
   */
  lemma JoinRule(b: Buffer)
    requires 0 <= b.row && b.row + 1 < |b.lines| && |b.lines[b.row]| <= b.col
    ensures var r := DeleteChar(b);
      (|b.lines[b.row]| + |b.lines[b.row + 1]| < LineLen <==> |r.lines| == |b.lines| - 1) &&
      (|r.lines| == |b.lines| - 1 ==> r.lines[b.row] == b.lines[b.row] + b.lines[b.row + 1]) &&
      (|r.lines| != |b.lines| - 1 ==> r == b)
  {
  }

  /**
   * Backspace at column 0 below the first line goes to the end of the
   * previous line whether or not the join is then refused for length.
   */
  lemma BackspaceAtColumnZero(b: Buffer)
    requires b.col == 0 && 0 < b.row <= |b.lines|
    ensures var r := Backspace(b);
      r.row == b.row - 1 && r.col == |b.lines[b.row - 1]|
    ensures b.row < |b.lines| && |b.lines[b.row - 1]| + |b.lines[b.row]| >= LineLen ==>
      Backspace(b).lines == b.lines
  {
  }
}
