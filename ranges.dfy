/**
 * The range resolver: the [a][,b] grammar of parse_range and the
 * normalisation of to_range_defaults, both against the current line count.
 */
module Ranges {
  import opened Base
  import opened Chars

  /**
   * to_range_defaults: raise a to 1, replace a b outside 1..count by count,
   * and swap the two when a > b on a non-empty store. The pair it returns is
   * what every ranged command iterates over.
   */
  function ToRangeDefaults(a: int, b: int, count: nat): (r: (int, int))
    ensures r.0 >= 1
    ensures count > 0 ==> r.0 <= r.1 && r.0 <= count
    ensures count > 0 && a <= count ==> r.1 <= count
    ensures r.1 > count ==> r.1 == a
    ensures 1 <= a <= b <= count ==> r == (a, b)
    ensures count == 0 ==> r.1 == 0
  {
    var a1 := if a < 1 then 1 else a;
    var b1 := if b < 1 || b > count then count else b;
    if a1 > b1 && count > 0 then (b1, a1) else (a1, b1)
  }

  /**
   * The swap can leave the end beyond the line count: on three lines the
   * range 5,5 becomes 3,5. Callers guard with i <= line_count.
   */
  lemma DefaultsCanExceedCount()
    ensures ToRangeDefaults(5, 5, 3) == (3, 5)
  {
  }

  /**
   * parse_range: blanks are skipped; an empty rest gives (1, count); a leading
   * ',' gives (1, Y) with a non-positive or missing Y read as count; a
   * leading digit gives X, X (or X, Y after a comma, X,<nothing> meaning
   * X, count) with non-positive numbers defaulted; anything else fails.
   */
  function ParseRange(p: string, count: nat): (r: Option<(int, int)>)
    ensures r.None? <==> (var c := SkipSpace(p, 0); c < |p| && p[c] != ',' && !IsDigit(p[c]))
    ensures r.Some? ==> r.value.0 >= 1
    ensures r.Some? ==> r.value.1 >= 1 || r.value.1 == count
  {
    var c := SkipSpace(p, 0);
    if c == |p| then Some((1, count))
    else if p[c] == ',' then
      var y := Atoi(p[c + 1..]);
      Some((1, if y > 0 then y else count))
    else if IsDigit(p[c]) then
      var x := Atoi(p[c..]);
      var d := SkipSpace(p, SkipDigits(p, c));
      var y := if d < |p| && p[d] == ',' then
                 (var e := SkipSpace(p, d + 1); if e < |p| then Atoi(p[e..]) else count)
               else x;
      Some((if x > 0 then x else 1, if y > 0 then y else count))
    else None
  }

  /** Blank input selects every line. */
  lemma ParseRangeBlank(p: string, count: nat)
    requires forall k :: 0 <= k < |p| ==> IsSpace(p[k])
    ensures ParseRange(p, count) == Some((1, count as int))
  {
  }

  function Positive(v: int, dflt: int): int {
    if v > 0 then v else dflt
  }

  /** ",Y" selects 1..Y, a zero Y meaning the last line. */
  lemma ParseRangeLeadingComma(y: nat, count: nat)
    ensures ParseRange("," + Decimal(y), count) == Some((1, Positive(y, count)))
  {
    var p := "," + Decimal(y);
    assert SkipSpace(p, 0) == 0;
    assert p[1..] == Decimal(y) + [];
    AtoiOfDecimal(y, []);
  }

  /** "X" selects the single line X, a zero X meaning 1 for the start and count for the end. */
  lemma ParseRangeSingle(x: nat, count: nat)
    ensures ParseRange(Decimal(x), count) == Some((Positive(x, 1), Positive(x, count)))
  {
    var p := Decimal(x);
    assert IsDigit(p[0]);
    assert SkipSpace(p, 0) == 0;
    assert p[0..] == p + [];
    AtoiOfDecimal(x, []);
    assert Atoi(p[0..]) == x;
    SkipDigitsOfLeadingDecimal(x, []);
    assert SkipDigits(p, 0) == |p|;
    assert SkipSpace(p, |p|) == |p|;
  }

  /** "X," runs from X to the last line. */
  lemma ParseRangeOpenEnd(x: nat, count: nat)
    ensures ParseRange(Decimal(x) + ",", count) == Some((Positive(x, 1), count as int))
  {
    var p := Decimal(x) + ",";
    assert p[0] == Decimal(x)[0];
    assert p[0..] == Decimal(x) + ",";
    AtoiOfDecimal(x, ",");
    SkipDigitsOfLeadingDecimal(x, ",");
    var d := |Decimal(x)|;
    assert p[d] == ',';
    assert SkipSpace(p, d) == d;
    assert SkipSpace(p, d + 1) == |p|;
  }

  /** "X,Y" reads both numbers back. */
  lemma ParseRangePair(x: nat, y: nat, count: nat)
    ensures ParseRange(Decimal(x) + "," + Decimal(y), count) == Some((Positive(x, 1), Positive(y, count)))
  {
    var p := Decimal(x) + "," + Decimal(y);
    var d := |Decimal(x)|;
    LeadingDecimal(x, "," + Decimal(y));
    assert p == Decimal(x) + ("," + Decimal(y));
    assert p[d + 1..] == Decimal(y) + [];
    LeadingDecimal(y, []);
    assert p[d + 1] == Decimal(y)[0];
    ParseRangeNumberComma(p, count, d, x, y);
  }

  /** A rendered number at the start of a string: no blanks to skip, atoi reads it, the digit run ends with it. */
  lemma LeadingDecimal(x: nat, rest: string)
    requires rest == [] || !IsDigit(rest[0])
    ensures var p := Decimal(x) + rest;
      IsDigit(p[0]) && SkipSpace(p, 0) == 0 && Atoi(p[0..]) == x && SkipDigits(p, 0) == |Decimal(x)|
  {
    var d := Decimal(x);
    var p := d + rest;
    assert p[0] == d[0];
    assert SkipSpace(p, 0) == 0;
    LeadingAtoi(x, rest);
    SkipDigitsOfLeadingDecimal(x, rest);
  }

  lemma LeadingAtoi(x: nat, rest: string)
    requires rest == [] || !IsDigit(rest[0])
    ensures var p := Decimal(x) + rest; Atoi(p[0..]) == x
  {
    var p := Decimal(x) + rest;
    assert p[0..] == p;
    AtoiOfDecimal(x, rest);
  }

  lemma ParseRangeNumberComma(p: string, count: nat, d: nat, x: int, y: int)
    requires 0 < |p| && IsDigit(p[0]) && Atoi(p[0..]) == x
    requires SkipDigits(p, 0) == d && d < |p| && p[d] == ','
    requires d + 1 < |p| && SkipSpace(p, d + 1) == d + 1 && Atoi(p[d + 1..]) == y
    ensures ParseRange(p, count) == Some((Positive(x, 1), Positive(y, count)))
  {
    assert SkipSpace(p, 0) == 0;
    assert SkipSpace(p, d) == d;
  }

  /** A negative start is not part of the grammar. */
  lemma ParseRangeRejectsSign(rest: string, count: nat)
    ensures ParseRange("-" + rest, count) == None
  {
    assert SkipSpace("-" + rest, 0) == 0;
  }
}
