/**
 * The REPL's argument handling for R, S and I. For R and S the text after
 * the command letter (leading blanks already skipped) is split at its first
 * '/', the part before it is read as a range and the rest is handed on as the
 * spec; I reads its line number with atoi.
 */
module Commands {
  import opened Base
  import opened Chars
  import opened Matching
  import opened Ranges
  import opened Store

  datatype Split = NoSlash | BadRange | Ranged(a: int, b: int, spec: string)

  /**
   * The R and S split: no '/' at all; a non-empty prefix that parse_range
   * refuses; or a range and the spec starting at the '/'. An empty prefix
   * leaves a and b at the REPL's initial -1.
   */
  function SplitAtSlash(arg: string, count: nat): (r: Split)
    ensures r.NoSlash? <==> '/' !in arg
    ensures r.Ranged? ==> 0 < |r.spec| <= |arg| && r.spec[0] == '/' && r.spec == arg[|arg| - |r.spec|..]
    ensures r.Ranged? ==> '/' !in arg[..|arg| - |r.spec|]
  {
    match Find(arg, "/")
    case None =>
      FindLeftmost(arg, "/");
      assert forall k :: 0 <= k < |arg| ==> arg[k] != '/' by {
        forall k | 0 <= k < |arg| ensures arg[k] != '/' {
          assert !Occurs(arg, "/", k);
          assert arg[k..k + 1] == [arg[k]];
        }
      }
      NoSlash
    case Some(i) =>
      FindLeftmost(arg, "/");
      assert arg[i] == '/';
      assert forall k :: 0 <= k < i ==> arg[k] != '/' by {
        forall k | 0 <= k < i ensures arg[k] != '/' {
          assert !Occurs(arg, "/", k);
          assert arg[k..k + 1] == [arg[k]];
        }
      }
      var prefix := arg[..i];
      assert arg == prefix + arg[i..];
      if prefix == [] then Ranged(-1, -1, arg[i..])
      else match ParseRange(prefix, count)
        case None => BadRange
        case Some((a, b)) => Ranged(a, b, arg[i..])
  }

  /** Splitting a range text and a spec glued together gives both back. */
  lemma SplitRoundTrip(range: string, spec: string, count: nat)
    requires '/' !in range && |spec| > 0 && spec[0] == '/'
    ensures SplitAtSlash(range + spec, count) ==
      if range == [] then Ranged(-1, -1, spec)
      else match ParseRange(range, count)
        case None => BadRange
        case Some((a, b)) => Ranged(a, b, spec)
  {
    var arg := range + spec;
    assert Occurs(arg, "/", |range|) by { assert arg[|range|..|range| + 1] == [spec[0]]; }
    FindLeftmost(arg, "/");
    assert forall k :: 0 <= k < |range| ==> !Occurs(arg, "/", k) by {
      forall k | 0 <= k < |range| ensures !Occurs(arg, "/", k) {
        assert arg[k..k + 1] == [range[k]];
      }
    }
    var i := Find(arg, "/").value;
    assert i == |range|;
    assert arg[..i] == range && arg[i..] == spec;
  }

  /** The range cmd_replace and cmd_search receive with "R /...": the whole buffer. */
  lemma EmptyPrefixCoversAll(count: nat)
    requires count > 0
    ensures ToRangeDefaults(-1, -1, count) == (1, count as int)
  {
  }

  /**
   * The (a, b, spec) that R passes to cmd_replace, or None when R reports a
   * syntax or range error.
   */
  function ReplaceArgs(arg: string, count: nat): (r: Option<(int, int, string)>)
    ensures r.Some? <==> SplitAtSlash(arg, count).Ranged?
    ensures r.Some? ==> r.value.2 == SplitAtSlash(arg, count).spec
    ensures '/' !in arg ==> r == None
    ensures r.Some? ==> var spec := r.value.2;
      0 < |spec| <= |arg| && spec[0] == '/' && spec == arg[|arg| - |spec|..] &&
      '/' !in arg[..|arg| - |spec|]
  {
    match SplitAtSlash(arg, count)
    case Ranged(a, b, spec) => Some((a, b, spec))
    case _ => None
  }

  /**
   * R with a slash-free range text in front of a spec: an empty range text
   * gives the initial -1, -1, a range parse_range refuses is an error, and
   * otherwise cmd_replace gets the parsed pair and the whole spec.
   */
  lemma ReplaceArgsOfRange(range: string, spec: string, count: nat)
    requires '/' !in range && |spec| > 0 && spec[0] == '/'
    ensures ReplaceArgs(range + spec, count) ==
      if range == [] then Some((-1, -1, spec))
      else match ParseRange(range, count)
        case None => None
        case Some((a, b)) => Some((a, b, spec))
  {
    SplitRoundTrip(range, spec, count);
  }

  /**
   * The (a, b, spec) that S passes to cmd_search: with no '/' the whole
   * argument is the text and the range is every line.
   */
  function SearchArgs(arg: string, count: nat): (r: Option<(int, int, string)>)
    ensures '/' !in arg ==> r == Some((1, count as int, arg))
    ensures r.None? <==> SplitAtSlash(arg, count).BadRange?
  {
    match SplitAtSlash(arg, count)
    case NoSlash => Some((1, count as int, arg))
    case BadRange => None
    case Ranged(a, b, spec) => Some((a, b, spec))
  }

  /** The line number I inserts before: atoi of the argument, or count + 1 without one. */
  function InsertArg(arg: string, count: nat): (r: int)
    ensures arg == [] ==> r == count + 1
    ensures arg != [] ==> r == Atoi(arg)
  {
    if arg == [] then count + 1 else Atoi(arg)
  }

  /**
   * I whose argument has no digit after its blanks and optional sign, a
   * bare I among them, appends after the last line.
   */
  lemma InsertArgWithoutDigitsAppends(arg: string, count: nat)
    requires var i := SkipSpace(arg, 0);
      var j := if i < |arg| && (arg[i] == '-' || arg[i] == '+') then i + 1 else i;
      j == |arg| || !IsDigit(arg[j])
    ensures InsertPosition(InsertArg(arg, count), count) == count + 1
  {
  }

  /** I -n appends after the last line too: atoi gives a line number below 1. */
  lemma InsertArgNegativeAppends(n: nat, count: nat)
    ensures InsertPosition(InsertArg("-" + Decimal(n), count), count) == count + 1
  {
    AtoiOfNegative(n);
  }

  /** I n with a plain number addresses line n. */
  lemma InsertArgNumber(n: nat, count: nat)
    ensures InsertArg(Decimal(n), count) == n
  {
    AtoiOfDecimal(n, []);
    assert Decimal(n) + [] == Decimal(n);
  }
}
