/**
 * The pattern grammar of the R and S commands: parse_between, which extracts
 * text between two delimiters, and the spec parsing at the start of
 * cmd_replace and cmd_search.
 */
module Patterns {
  import opened Base
  import opened Chars

  /** The walk of parse_between after the opening delimiter: out holds what was kept so far. */
  function ScanBetween(p: string, delim: char, outsz: nat, i: nat, out: string): (r: Option<(string, nat)>)
    requires 1 <= i <= |p|
    ensures r.Some? ==> i < r.value.1 <= |p|
    ensures r.Some? && |out| < outsz && delim !in out ==> |r.value.0| < outsz && delim !in r.value.0
    decreases |p| - i
  {
    if i == |p| then None
    else if p[i] == delim then Some((out, i + 1))
    else ScanBetween(p, delim, outsz, i + 1, if |out| + 1 < outsz then out + [p[i]] else out)
  }

  /**
   * parse_between: when p starts with delim and a second delim follows, the
   * text in between (truncated to outsz - 1 characters) and the position just
   * past the closing delimiter; otherwise nothing (NULL).
   */
  function ParseBetween(p: string, delim: char, outsz: nat): (r: Option<(string, nat)>)
    requires outsz >= 1
    ensures r.Some? ==> 2 <= r.value.1 <= |p|
    ensures r.Some? ==> |r.value.0| < outsz && delim !in r.value.0
  {
    if |p| == 0 || p[0] != delim then None else ScanBetween(p, delim, outsz, 1, [])
  }

  function Min(x: int, y: int): int {
    if x <= y then x else y
  }

  lemma {:induction false} ScanBetweenSpec(p: string, delim: char, outsz: nat, i: nat, out: string)
    requires outsz >= 1 && 1 <= i <= |p|
    requires delim !in p[1..i]
    requires out == p[1..i][..Min(i - 1, outsz - 1)]
    ensures ScanBetween(p, delim, outsz, i, out).Some? <==> delim in p[i..]
    ensures ScanBetween(p, delim, outsz, i, out).Some? ==>
      var (text, k) := ScanBetween(p, delim, outsz, i, out).value;
      i < k <= |p| && p[k - 1] == delim && delim !in p[1..k - 1] &&
      text == p[1..k - 1][..Min(k - 2, outsz - 1)]
    decreases |p| - i
  {
    if i < |p| && p[i] != delim {
      var out' := if |out| + 1 < outsz then out + [p[i]] else out;
      ScanStep(p, delim, outsz, i, out);
      ScanBetweenSpec(p, delim, outsz, i + 1, out');
    } else if i < |p| {
      assert p[i..][0] == delim;
    }
  }

  /** One kept (or dropped) character: the walk's invariant holds one position on. */
  lemma ScanStep(p: string, delim: char, outsz: nat, i: nat, out: string)
    requires outsz >= 1 && 1 <= i < |p| && p[i] != delim
    requires delim !in p[1..i]
    requires out == p[1..i][..Min(i - 1, outsz - 1)]
    ensures delim !in p[1..i + 1]
    ensures (if |out| + 1 < outsz then out + [p[i]] else out) == p[1..i + 1][..Min(i, outsz - 1)]
    ensures delim in p[i..] <==> delim in p[i + 1..]
  {
    assert p[1..i + 1] == p[1..i] + [p[i]];
    assert p[i..] == [p[i]] + p[i + 1..];
  }

  /**
   * What parse_between promises: it succeeds exactly when p opens with delim
   * and the delimiter occurs again; then it returns the text strictly
   * between the two (truncated to outsz - 1 characters) and the position
   * just past the first closing delimiter.
   */
  lemma ParseBetweenSpec(p: string, delim: char, outsz: nat)
    requires outsz >= 1
    ensures ParseBetween(p, delim, outsz).Some? <==> |p| > 0 && p[0] == delim && delim in p[1..]
    ensures ParseBetween(p, delim, outsz).Some? ==>
      var (text, k) := ParseBetween(p, delim, outsz).value;
      2 <= k <= |p| && p[k - 1] == delim && delim !in p[1..k - 1] &&
      text == p[1..k - 1][..Min(k - 2, outsz - 1)]
  {
    if |p| > 0 && p[0] == delim {
      ScanBetweenSpec(p, delim, outsz, 1, []);
    }
  }

  /** Round trip: delimiting a text free of the delimiter and parsing it back gives the text and the rest. */
  lemma ParseBetweenRoundTrip(text: string, delim: char, rest: string, outsz: nat)
    requires delim !in text && |text| < outsz
    ensures ParseBetween([delim] + text + [delim] + rest, delim, outsz) == Some((text, |text| + 2))
  {
    var p := [delim] + text + [delim] + rest;
    assert p[1..|text| + 1] == text;
    assert p[|text| + 1] == delim;
    ParseBetweenSpec(p, delim, outsz);
    assert delim in p[1..];
    var (t, k) := ParseBetween(p, delim, outsz).value;
    assert forall m :: 1 <= m <= |text| ==> p[m] == text[m - 1] && p[m] != delim;
    assert k >= |text| + 2;
    assert forall m :: 1 <= m < k - 1 ==> p[1..k - 1][m - 1] == p[m] && p[m] != delim;
    assert p[1..k - 1] == text;
    assert text[..Min(k - 2, outsz - 1)] == text;
  }

  /** An R command's pattern: old text, new text and the g flag. */
  datatype Pattern = Pattern(oldp: string, newp: string, global: bool)

  /** The g flag test of cmd_replace: the first non-blank character at i is g or G. */
  predicate GlobalFlag(spec: string, i: nat): (r: bool)
    requires i <= |spec|
    ensures r ==> exists k :: i <= k < |spec| && (spec[k] == 'g' || spec[k] == 'G')
    ensures (forall k :: i <= k < |spec| ==> IsSpace(spec[k])) ==> !r
    ensures i < |spec| && (spec[i] == 'g' || spec[i] == 'G') ==> r
  {
    var j := SkipSpace(spec, i);
    j < |spec| && (spec[j] == 'g' || spec[j] == 'G')
  }

  function Flag(global: bool): string {
    if global then "g" else ""
  }

  /** The g flag test reads back the flag written after the last '/'. */
  lemma GlobalFlagOfFlag(spec: string, i: nat, global: bool)
    requires i <= |spec| && spec[i..] == Flag(global)
    ensures GlobalFlag(spec, i) == global
  {
    if global {
      assert spec[i] == 'g';
    } else {
      assert |spec[i..]| == 0;
    }
  }

  /**
   * The part of the spec parsing that both readings below share:
   * parse_between for the new text from p1, then the g flag test after it.
   */
  function ParseNewAndFlag(spec: string, p1: nat, oldp: string): (r: Option<Pattern>)
    requires p1 <= |spec|
    ensures r.Some? ==> r.value.oldp == oldp && |r.value.newp| < LineLen && '/' !in r.value.newp
  {
    match ParseBetween(spec[p1..], '/', LineLen as nat)
    case None => None
    case Some((newp, k2)) => Some(Pattern(oldp, newp, GlobalFlag(spec, p1 + k2)))
  }

  /** From a '/'-delimited new text followed by the flag, the new text and the flag are read back. */
  lemma NewAndFlagRoundTrip(spec: string, p1: nat, oldp: string, newp: string, global: bool)
    requires p1 <= |spec| && spec[p1..] == ['/'] + newp + ['/'] + Flag(global)
    requires '/' !in newp && |newp| < LineLen
    ensures ParseNewAndFlag(spec, p1, oldp) == Some(Pattern(oldp, newp, global))
  {
    ParseBetweenRoundTrip(newp, '/', Flag(global), LineLen as nat);
    var k2 := |newp| + 2;
    assert spec[p1 + k2..] == spec[p1..][k2..] == Flag(global);
    GlobalFlagOfFlag(spec, p1 + k2, global);
  }

  /**
   * The spec parsing of cmd_replace as written: skip blanks, parse_between
   * for the old text, skip blanks, parse_between again for the new text
   * starting where the first call stopped, i.e. AFTER its closing '/'.
   */
  function ParseReplaceSpec(spec: string): (r: Option<Pattern>)
    ensures r.Some? ==> |r.value.oldp| < LineLen && '/' !in r.value.oldp
    ensures r.Some? ==> |r.value.newp| < LineLen && '/' !in r.value.newp
  {
    var p0 := SkipSpace(spec, 0);
    match ParseBetween(spec[p0..], '/', LineLen as nat)
    case None => None
    case Some((oldp, k1)) =>
      ParseNewAndFlag(spec, SkipSpace(spec, p0 + k1), oldp)
  }

  /**
   * As written, the usage message's form /old/new/ is rejected: after the first
   * segment the parser stands on the new text, not on a '/'.
   */
  lemma DocumentedReplaceSyntaxRejected(oldp: string, newp: string, global: bool)
    requires '/' !in oldp && '/' !in newp && |oldp| < LineLen
    ensures ParseReplaceSpec("/" + oldp + "/" + newp + "/" + Flag(global)) == None
  {
    var spec := "/" + oldp + "/" + newp + "/" + Flag(global);
    assert SkipSpace(spec, 0) == 0;
    assert spec == ['/'] + oldp + ['/'] + (newp + "/" + Flag(global));
    ParseBetweenRoundTrip(oldp, '/', newp + "/" + Flag(global), LineLen as nat);
    var k1 := |oldp| + 2;
    assert spec[k1..] == newp + "/" + Flag(global);
    SecondSegmentRejected(spec, k1, newp, global);
  }

  /**
   * Where the first call stopped the new text begins, and from there (after
   * blanks) either a character of the new text or the final '/' is read as
   * the opening delimiter; neither is followed by a closing one.
   */
  lemma SecondSegmentRejected(spec: string, k1: nat, newp: string, global: bool)
    requires k1 <= |spec| && spec[k1..] == newp + "/" + Flag(global) && '/' !in newp
    ensures ParseBetween(spec[SkipSpace(spec, k1)..], '/', LineLen as nat) == None
  {
    var p1 := SkipSpace(spec, k1);
    var e := k1 + |newp|;
    assert spec[e] == '/';
    if p1 < e {
      assert spec[p1..][0] == spec[p1] == newp[p1 - k1];
    } else {
      assert p1 == e;
      assert spec[p1..] == "/" + Flag(global);
      assert '/' !in spec[p1..][1..];
    }
    ParseBetweenSpec(spec[p1..], '/', LineLen as nat);
  }

  /** As written, the parser needs the middle slash doubled: /old//new/ is what it accepts. */
  lemma DoubledSlashAccepted(oldp: string, newp: string, global: bool)
    requires '/' !in oldp && '/' !in newp && |oldp| < LineLen && |newp| < LineLen
    ensures ParseReplaceSpec("/" + oldp + "//" + newp + "/" + Flag(global)) == Some(Pattern(oldp, newp, global))
  {
    var spec := "/" + oldp + "//" + newp + "/" + Flag(global);
    assert SkipSpace(spec, 0) == 0;
    assert spec == ['/'] + oldp + ['/'] + ("/" + newp + "/" + Flag(global));
    ParseBetweenRoundTrip(oldp, '/', "/" + newp + "/" + Flag(global), LineLen as nat);
    var k1 := |oldp| + 2;
    assert spec[k1..] == ['/'] + newp + ['/'] + Flag(global);
    assert SkipSpace(spec, k1) == k1;
    NewAndFlagRoundTrip(spec, k1, oldp, newp, global);
  }

  /**
   * The intended parsing: the closing '/' of the old text also opens the new
   * text, so /old/new/[g] is accepted.
   */
  function ParseReplaceSpecShared(spec: string): (r: Option<Pattern>)
    ensures r.Some? ==> |r.value.oldp| < LineLen && '/' !in r.value.oldp
    ensures r.Some? ==> |r.value.newp| < LineLen && '/' !in r.value.newp
  {
    var p0 := SkipSpace(spec, 0);
    match ParseBetween(spec[p0..], '/', LineLen as nat)
    case None => None
    case Some((oldp, k1)) =>
      ParseNewAndFlag(spec, p0 + k1 - 1, oldp)
  }

  /** The intended parser reads back the usage message's form /old/new/[g]. */
  lemma SharedDelimiterRoundTrip(oldp: string, newp: string, global: bool)
    requires '/' !in oldp && '/' !in newp && |oldp| < LineLen && |newp| < LineLen
    ensures ParseReplaceSpecShared("/" + oldp + "/" + newp + "/" + Flag(global)) == Some(Pattern(oldp, newp, global))
  {
    var spec := "/" + oldp + "/" + newp + "/" + Flag(global);
    assert SkipSpace(spec, 0) == 0;
    assert spec == ['/'] + oldp + ['/'] + (newp + "/" + Flag(global));
    ParseBetweenRoundTrip(oldp, '/', newp + "/" + Flag(global), LineLen as nat);
    var p1 := |oldp| + 1;
    assert spec[p1..] == ['/'] + newp + ['/'] + Flag(global);
    NewAndFlagRoundTrip(spec, p1, oldp, newp, global);
  }

  /**
   * The spec parsing of cmd_search: a '/'-delimited text (failing when the
   * closing '/' is missing), or else the rest of the line after blanks,
   * truncated to LINE_LEN - 1 characters.
   */
  function ParseSearchSpec(spec: string): (r: Option<string>)
    ensures r.Some? ==> |r.value| < LineLen
    ensures r.None? <==> (var c := SkipSpace(spec, 0); c < |spec| && spec[c] == '/' && '/' !in spec[c + 1..])
  {
    var c := SkipSpace(spec, 0);
    if c < |spec| && spec[c] == '/' then
      ParseBetweenSpec(spec[c..], '/', LineLen as nat);
      assert spec[c..][1..] == spec[c + 1..];
      match ParseBetween(spec[c..], '/', LineLen as nat)
      case None => None
      case Some((pat, _)) => Some(pat)
    else
      var rest := spec[c..];
      Some(rest[..Min(|rest|, LineLen - 1)])
  }

  /**
   * The documented form /text/ gives the text between the slashes, whatever
   * follows the closing one and however many blanks come first.
   */
  lemma SearchSlashText(blanks: string, t: string, rest: string)
    requires forall k :: 0 <= k < |blanks| ==> IsSpace(blanks[k])
    requires '/' !in t && |t| < LineLen
    ensures ParseSearchSpec(blanks + "/" + t + "/" + rest) == Some(t)
  {
    var spec := blanks + "/" + t + "/" + rest;
    SkipBlanks(spec, blanks);
    var c := |blanks|;
    assert spec[c..] == ['/'] + t + ['/'] + rest;
    ParseBetweenRoundTrip(t, '/', rest, LineLen as nat);
  }

  /** SkipSpace walks over a prefix of blanks to the first '/' after it. */
  lemma SkipBlanks(spec: string, blanks: string)
    requires |blanks| < |spec| && spec[..|blanks|] == blanks && spec[|blanks|] == '/'
    requires forall k :: 0 <= k < |blanks| ==> IsSpace(blanks[k])
    ensures SkipSpace(spec, 0) == |blanks|
  {
  }

  /** A bare search text is taken literally: the text after the blanks, whole when it fits. */
  lemma BareSearchText(spec: string)
    requires var c := SkipSpace(spec, 0); c == |spec| || spec[c] != '/'
    requires |spec| < LineLen
    ensures ParseSearchSpec(spec) == Some(spec[SkipSpace(spec, 0)..])
  {
    var rest := spec[SkipSpace(spec, 0)..];
    assert rest[..|rest|] == rest;
  }
}
