/**
 * The C library's character classes in the "C" locale (isspace, isdigit,
 * tolower), atoi and the editor's chomp. A C string is modelled as the
 * sequence of characters before its terminator.
 */
module Chars {

  /** isspace: blank, tab, newline, vertical tab, form feed, carriage return. */
  predicate IsSpace(c: char) {
    c == ' ' || '\t' <= c <= '\r'
  }

  predicate IsDigit(c: char) {
    '0' <= c <= '9'
  }

  predicate IsUpper(c: char) {
    'A' <= c <= 'Z'
  }

  /** tolower on ASCII: only 'A'..'Z' change. */
  function ToLower(c: char): char {
    if IsUpper(c) then (c as int + 32) as char else c
  }

  /** The string with every character passed through ToLower. */
  function Lower(s: string): (r: string)
    ensures |r| == |s|
    ensures forall i :: 0 <= i < |s| ==> r[i] == ToLower(s[i])
  {
    if s == [] then [] else [ToLower(s[0])] + Lower(s[1..])
  }

  /** Folding a slice is slicing the folded string. */
  lemma LowerSlice(s: string, i: nat, j: nat)
    requires i <= j <= |s|
    ensures Lower(s[i..j]) == Lower(s)[i..j]
  {
    var l, m := Lower(s[i..j]), Lower(s)[i..j];
    forall k | 0 <= k < j - i ensures l[k] == m[k] {
      assert l[k] == ToLower(s[i + k]);
      assert m[k] == Lower(s)[i + k];
    }
    assert |l| == |m|;
  }

  /** First position at or after i that does not hold white space (the `while (isspace(*c)) ++c;` walk). */
  function SkipSpace(s: string, i: nat): (j: nat)
    requires i <= |s|
    ensures i <= j <= |s|
    ensures forall k :: i <= k < j ==> IsSpace(s[k])
    ensures j < |s| ==> !IsSpace(s[j])
    decreases |s| - i
  {
    if i < |s| && IsSpace(s[i]) then SkipSpace(s, i + 1) else i
  }

  /** First position at or after i that does not hold a digit. */
  function SkipDigits(s: string, i: nat): (j: nat)
    requires i <= |s|
    ensures i <= j <= |s|
    ensures forall k :: i <= k < j ==> IsDigit(s[k])
    ensures j < |s| ==> !IsDigit(s[j])
    decreases |s| - i
  {
    if i < |s| && IsDigit(s[i]) then SkipDigits(s, i + 1) else i
  }

  function DigitValue(c: char): nat
    requires IsDigit(c)
  {
    c as int - '0' as int
  }

  /** Decimal value of a run of digits, most significant digit first. */
  function DigitsValue(d: string): nat
    requires forall k :: 0 <= k < |d| ==> IsDigit(d[k])
  {
    if d == [] then 0 else 10 * DigitsValue(d[..|d| - 1]) + DigitValue(d[|d| - 1])
  }

  /**
   * atoi: skip leading white space, read an optional sign, then the longest
   * run of digits; no digits gives 0. Integers are unbounded here.
   */
  function Atoi(s: string): (r: int)
    ensures var i := SkipSpace(s, 0);
      var j := if i < |s| && (s[i] == '-' || s[i] == '+') then i + 1 else i;
      (j == |s| || !IsDigit(s[j])) ==> r == 0
    ensures r < 0 ==> var i := SkipSpace(s, 0); i < |s| && s[i] == '-'
  {
    var i := SkipSpace(s, 0);
    var neg := i < |s| && s[i] == '-';
    var j := if i < |s| && (s[i] == '-' || s[i] == '+') then i + 1 else i;
    var k := SkipDigits(s, j);
    var v: int := DigitsValue(s[j..k]);
    if neg then -v else v
  }

  function DigitChar(d: nat): (c: char)
    requires d < 10
    ensures IsDigit(c) && DigitValue(c) == d
  {
    ('0' as int + d) as char
  }

  /** The decimal rendering of n, without sign or leading zeros. */
  function Decimal(n: nat): (r: string)
    ensures |r| > 0
    ensures forall k :: 0 <= k < |r| ==> IsDigit(r[k])
  {
    if n < 10 then [DigitChar(n)] else Decimal(n / 10) + [DigitChar(n % 10)]
  }

  lemma {:induction false} DigitsValueOfDecimal(n: nat)
    ensures DigitsValue(Decimal(n)) == n
  {
    if n >= 10 {
      var d := Decimal(n);
      assert d[..|d| - 1] == Decimal(n / 10);
      DigitsValueOfDecimal(n / 10);
    }
  }

  /** The digit run of a rendered number ends where the number does. */
  lemma SkipDigitsOfDecimal(n: nat, rest: string, pre: string)
    requires rest == [] || !IsDigit(rest[0])
    ensures SkipDigits(pre + Decimal(n) + rest, |pre|) == |pre| + |Decimal(n)|
  {
    var s := pre + Decimal(n) + rest;
    var d := Decimal(n);
    assert forall m :: |pre| <= m < |pre| + |d| ==> s[m] == d[m - |pre|] && IsDigit(s[m]);
    assert |pre| + |d| < |s| ==> s[|pre| + |d|] == rest[0];
  }

  /** The digit run of a number at the start of a string ends where the number does. */
  lemma SkipDigitsOfLeadingDecimal(n: nat, rest: string)
    requires rest == [] || !IsDigit(rest[0])
    ensures SkipDigits(Decimal(n) + rest, 0) == |Decimal(n)|
  {
    var e: string := [];
    SkipDigitsOfDecimal(n, rest, e);
    assert e + Decimal(n) == Decimal(n);
  }

  /** atoi reads back a rendered number, whatever non-digit text follows it. */
  lemma AtoiOfDecimal(n: nat, rest: string)
    requires rest == [] || !IsDigit(rest[0])
    ensures Atoi(Decimal(n) + rest) == n
  {
    var s := Decimal(n) + rest;
    var d := Decimal(n);
    assert s[0] == d[0];
    assert SkipSpace(s, 0) == 0;
    assert forall m :: 0 <= m < |d| ==> s[m] == d[m] && IsDigit(s[m]);
    assert |d| < |s| ==> s[|d|] == rest[0];
    var k := SkipDigits(s, 0);
    assert k == |d|;
    assert s[0..k] == d;
    DigitsValueOfDecimal(n);
  }

  /** atoi reads a minus sign followed by a rendered number as its negation. */
  lemma AtoiOfNegative(n: nat)
    ensures Atoi("-" + Decimal(n)) == -(n as int)
  {
    var d := Decimal(n);
    var s := "-" + d;
    assert s[0] == '-';
    assert SkipSpace(s, 0) == 0;
    SkipDigitsOfDecimal(n, [], "-");
    assert "-" + d + [] == s;
    assert s[1..|s|] == d;
    DigitsValueOfDecimal(n);
  }

  /**
   * chomp: drop one trailing '\n' or '\r', then one more trailing '\r'.
   */
  function Chomp(s: string): (r: string)
    ensures r <= s
  {
    if |s| > 0 && (s[|s| - 1] == '\n' || s[|s| - 1] == '\r') then
      var t := s[..|s| - 1];
      if |t| > 0 && t[|t| - 1] == '\r' then t[..|t| - 1] else t
    else s
  }

  /**
   * What chomp removes is one of the endings "", "\n", "\r", "\r\n" or
   * "\r\r", and a string that does not end in '\n' or '\r' is kept whole.
   */
  lemma ChompDrops(s: string)
    ensures s[|Chomp(s)|..] in {"", "\n", "\r", "\r\n", "\r\r"}
    ensures (s == [] || (s[|s| - 1] != '\n' && s[|s| - 1] != '\r')) ==> Chomp(s) == s
  {
    if |s| > 0 && (s[|s| - 1] == '\n' || s[|s| - 1] == '\r') {
      var t := s[..|s| - 1];
      if |t| > 0 && t[|t| - 1] == '\r' {
        assert s[|t| - 1..] == [s[|s| - 2], s[|s| - 1]];
      } else {
        assert s[|t|..] == [s[|s| - 1]];
      }
    } else {
      assert s[|s|..] == [];
    }
  }

  /** A line read with any of the usual line endings comes back without it. */
  lemma ChompLineEnding(t: string, e: string)
    requires t == [] || (t[|t| - 1] != '\n' && t[|t| - 1] != '\r')
    requires e in {"", "\n", "\r", "\r\n"}
    ensures Chomp(t + e) == t
  {
    if e == "\r\n" {
      assert (t + e)[..|t + e| - 1] == t + "\r";
      assert (t + "\r")[..|t|] == t;
    } else if e != "" {
      assert (t + e)[..|t + e| - 1] == t;
    }
  }
}
