/**
 The range argument of ver_rs and ver_cut: "N", "N-" or "N-M", turned into an
 inclusive pair of component numbers. `Grammar` is the peg rule `cmd::range`,
 `Parse` the wrapper `parse::range` that also rejects inverted ranges.
 */
module Range {
  import opened Wrappers
  import opened Decimal
  import opened Builtin

  /** End of the maximal run of digits starting at i (greedy `['0'..='9']*`). */
  function DigitsEnd(s: string, i: nat): (j: nat)
    requires i <= |s|
    ensures i <= j <= |s|
    ensures AllDigits(s[i..j])
    ensures j == |s| || !IsDigit(s[j])
    decreases |s| - i
  {
    if i < |s| && IsDigit(s[i]) then
      var j := DigitsEnd(s, i + 1);
      assert s[i..j] == [s[i]] + s[i + 1..j];
      j
    else i
  }

  /** `start_s:$(['0'..='9']+) "-" end_s:$(['0'..='9']+)`, matched from the start of s. */
  function BoundedAlt(s: string): Option<((nat, nat), nat)> {
    var d := DigitsEnd(s, 0);
    if d == 0 || d == |s| || s[d] != '-' then None
    else
      var e := DigitsEnd(s, d + 1);
      if e == d + 1 then None else Some(((Value(s[..d]), Value(s[d + 1..e])), e))
  }

  /** `start_s:$(['0'..='9']+) "-"`: up to max, or the single point past it. */
  function OpenAlt(s: string, max: nat): Option<((nat, nat), nat)> {
    var d := DigitsEnd(s, 0);
    if d == 0 || d == |s| || s[d] != '-' then None
    else
      var start := Value(s[..d]);
      Some((if start <= max then (start, max) else (start, start), d + 1))
  }

  /** `start_s:$(['0'..='9']+)`. */
  function PointAlt(s: string): Option<((nat, nat), nat)> {
    var d := DigitsEnd(s, 0);
    if d == 0 then None else Some(((Value(s[..d]), Value(s[..d])), d))
  }

  /**
   `cmd::range(s, max)`: the first alternative that matches is taken, as peg's ordered
   choice does, and the parse succeeds only if it consumed all of s.
   */
  function Grammar(s: string, max: nat): (r: Result<(nat, nat), Error>)
    ensures r.Failure? ==> r.error == InvalidRange(s)
  {
    var m :=
      if BoundedAlt(s).Some? then BoundedAlt(s)
      else if OpenAlt(s, max).Some? then OpenAlt(s, max)
      else PointAlt(s);
    match m
    case Some((bounds, consumed)) => if consumed == |s| then Success(bounds) else Failure(InvalidRange(s))
    case None => Failure(InvalidRange(s))
  }

  /** `parse::range(s, max)`: the grammar, then the check that the range is not inverted. */
  function Parse(s: string, max: nat): (r: Result<(nat, nat), Error>)
    ensures r.Success? ==> r.value.0 <= r.value.1
    ensures r.Failure? ==> r.error.InvalidRange? || r.error.InvertedRange?
  {
    match Grammar(s, max)
    case Failure(e) => Failure(e)
    case Success((start, end)) =>
      if end < start then Failure(InvertedRange(start, end)) else Success((start, end))
  }

  /** The texts the grammar accepts: digits, digits and a dash, or digits, a dash and digits. */
  ghost predicate IsRangeSyntax(s: string) {
    || IsNumeral(s)
    || (|s| > 1 && s[|s| - 1] == '-' && IsNumeral(s[..|s| - 1]))
    || exists i :: 0 < i < |s| - 1 && s[i] == '-' && IsNumeral(s[..i]) && IsNumeral(s[i + 1..])
  }

  /** In a numeral followed by anything, the digit run ends where the numeral ends. */
  lemma DigitsEndAfter(a: string, rest: string)
    requires IsNumeral(a)
    requires rest == [] || !IsDigit(rest[0])
    ensures DigitsEnd(a + rest, 0) == |a|
    ensures (a + rest)[..|a|] == a
  {
    assert (a + rest)[..|a|] == a;
  }

  /** A digit run found between two positions is all of the text there. */
  lemma DigitsEndFrom(s: string, i: nat, b: string)
    requires i <= |s| && s[i..] == b && AllDigits(b)
    ensures DigitsEnd(s, i) == |s|
    decreases |s| - i
  {
    if i < |s| {
      assert s[i] == b[0];
      assert s[i + 1..] == b[1..];
      DigitsEndFrom(s, i + 1, b[1..]);
    }
  }

  /** "N-M" yields (N, M) literally, with no clamping against max, unless M < N. */
  lemma ParseBounded(a: string, b: string, max: nat)
    requires IsNumeral(a) && IsNumeral(b)
    ensures Parse(a + "-" + b, max) ==
      if Value(b) < Value(a) then Failure(InvertedRange(Value(a), Value(b)))
      else Success((Value(a), Value(b)))
  {
    var s := a + "-" + b;
    assert s == a + ("-" + b);
    DigitsEndAfter(a, "-" + b);
    assert s[|a|] == '-';
    assert s[|a| + 1..] == b;
    DigitsEndFrom(s, |a| + 1, b);
    assert s[|a| + 1..|s|] == b;
    assert BoundedAlt(s) == Some(((Value(a), Value(b)), |s|));
  }

  /** "N-" yields (N, max) when N <= max, and the single point (N, N) past max. */
  lemma ParseOpen(a: string, max: nat)
    requires IsNumeral(a)
    ensures Parse(a + "-", max) ==
      Success(if Value(a) <= max then (Value(a), max) else (Value(a), Value(a)))
  {
    var s := a + "-";
    DigitsEndAfter(a, "-");
    assert DigitsEnd(s, |a| + 1) == |a| + 1;
  }

  /** "N" yields (N, N). */
  lemma ParsePoint(a: string, max: nat)
    requires IsNumeral(a)
    ensures Parse(a, max) == Success((Value(a), Value(a)))
  {
    DigitsEndAfter(a, []);
    assert a + [] == a;
  }

  /** Whatever is not of the three forms (empty, letters, extra characters) is an invalid range. */
  lemma ParseRejectsOtherText(s: string, max: nat)
    ensures !IsRangeSyntax(s) ==> Parse(s, max) == Failure(InvalidRange(s))
  {
    if Grammar(s, max).Success? {
      var d := DigitsEnd(s, 0);
      if BoundedAlt(s).Some? {
        var e := DigitsEnd(s, d + 1);
        assert e == |s|;
        assert s[d + 1..] == s[d + 1..e];
        assert IsNumeral(s[..d]) && IsNumeral(s[d + 1..]);
        assert 0 < d < |s| - 1 && s[d] == '-';
      } else if OpenAlt(s, max).Some? {
        assert d + 1 == |s| && s[..|s| - 1] == s[..d];
      } else {
        assert d == |s| && s == s[..d];
      }
    }
  }

  /** An inverted literal range fails whatever the maximum ("3-1" never parses). */
  lemma InvertedAlwaysFails(max: nat)
    ensures Parse("3-1", max) == Failure(InvertedRange(3, 1))
  {
    ParseBounded("3", "1", max);
    assert "3" + "-" + "1" == "3-1";
  }
}
