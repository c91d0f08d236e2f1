/** Worked examples of the builtins on concrete versions. */
module Examples {
  import opened Wrappers
  import Decimal
  import Range
  import opened Tokenizer
  import opened VerRs
  import opened VerCut

  lemma SplitThree()
    ensures Split("1.2.3") == ["", "1", ".", "2", ".", "3"]
  {
    var s := "1.2.3";
    assert MatchAt(s, 0) == (0, 1) by { assert RunEnd(s, 1, Digit) == 1; }
    assert MatchAt(s, 1) == (2, 3) by { assert RunEnd(s, 2, NonAlnum) == 2; assert RunEnd(s, 3, Digit) == 3; }
    assert MatchAt(s, 3) == (4, 5) by { assert RunEnd(s, 4, NonAlnum) == 4; assert RunEnd(s, 5, Digit) == 5; }
    assert MatchAt(s, 5) == (5, 5);
    assert s[0..0] == "" && s[0..1] == "1" && s[1..2] == "." && s[2..3] == "2" && s[3..4] == "." && s[4..5] == "3";
    assert Captures(s, 5, Some(5)) == [];
    assert Captures(s, 3, Some(3)) == [".", "3"];
    assert Captures(s, 1, Some(1)) == [".", "2", ".", "3"];
  }

  lemma SplitFour()
    ensures Split("1.2.3.4") == ["", "1", ".", "2", ".", "3", ".", "4"]
  {
    var s := "1.2.3.4";
    assert MatchAt(s, 0) == (0, 1) by { assert RunEnd(s, 1, Digit) == 1; }
    assert MatchAt(s, 1) == (2, 3) by { assert RunEnd(s, 2, NonAlnum) == 2; assert RunEnd(s, 3, Digit) == 3; }
    assert MatchAt(s, 3) == (4, 5) by { assert RunEnd(s, 4, NonAlnum) == 4; assert RunEnd(s, 5, Digit) == 5; }
    assert MatchAt(s, 5) == (6, 7) by { assert RunEnd(s, 6, NonAlnum) == 6; assert RunEnd(s, 7, Digit) == 7; }
    assert MatchAt(s, 7) == (7, 7);
    assert s[0..0] == "" && s[0..1] == "1" && s[1..2] == "." && s[2..3] == "2" && s[3..4] == ".";
    assert s[4..5] == "3" && s[5..6] == "." && s[6..7] == "4";
    assert Captures(s, 7, Some(7)) == [];
    assert Captures(s, 5, Some(5)) == [".", "4"];
    assert Captures(s, 3, Some(3)) == [".", "3", ".", "4"];
    assert Captures(s, 1, Some(1)) == [".", "2", ".", "3", ".", "4"];
  }

  lemma ValueOneDigit(c: char)
    requires Decimal.IsDigit(c)
    ensures Decimal.Value([c]) == Decimal.DigitValue(c)
  {
    assert [c][..0] == "";
  }

  /** A single (digit-digit, separator) pair parses to one edit. */
  lemma OnePair(a: char, b: char, sep: string, max: nat)
    requires Decimal.IsDigit(a) && Decimal.IsDigit(b)
    requires Decimal.DigitValue(a) <= Decimal.DigitValue(b)
    ensures ParseEdits([[a, '-', b], sep], max) ==
      Success([Edit(Decimal.DigitValue(a), Decimal.DigitValue(b), sep)])
  {
    ValueOneDigit(a);
    ValueOneDigit(b);
    Range.ParseBounded([a], [b], max);
    assert [a] + "-" + [b] == [a, '-', b];
    var c := [[a, '-', b], sep];
    assert c[..0] == [];
    assert ParseEdits(c, max) == Success([] + [Edit(Decimal.DigitValue(a), Decimal.DigitValue(b), c[1])]);
    assert [] + [Edit(Decimal.DigitValue(a), Decimal.DigitValue(b), c[1])]
        == [Edit(Decimal.DigitValue(a), Decimal.DigitValue(b), sep)];
  }

  lemma OneEdit(parts: seq<string>, e: Edit)
    ensures ApplyEdits(parts, [e]) == Overwrite(parts, e)
  {
    assert [e][..0] == [];
  }

  lemma ParseOneOne()
    ensures ParseEdits(["1-1", "_"], 3) == Success([Edit(1, 1, "_")])
  {
    OnePair('1', '1', "_", 3);
  }

  lemma ApplyOneOne()
    ensures ApplyEdits(["", "1", ".", "2", ".", "3"], [Edit(1, 1, "_")]) == ["", "1", "_", "2", ".", "3"]
  {
    OneEdit(["", "1", ".", "2", ".", "3"], Edit(1, 1, "_"));
  }

  /** Substitute on a version whose split, parsed edits and joined result are known. */
  lemma SubstituteFrom(ver: string, chunks: seq<string>, parts: seq<string>, edits: seq<Edit>, out: string)
    requires |chunks| % 2 == 0
    requires Split(ver) == parts
    requires ParseEdits(chunks, |parts| / 2) == Success(edits)
    requires Join(ApplyEdits(parts, edits)) == out
    ensures Substitute(ver, chunks) == Success(out)
  {
  }

  /** Cut on a version whose split and parsed range are known. */
  lemma CutFrom(range: string, ver: string, parts: seq<string>, start: nat, end: nat, out: string)
    requires Split(ver) == parts
    requires Range.Parse(range, |parts| / 2) == Success((start, end))
    requires Join(parts[SliceBounds(start, end, |parts|).0..SliceBounds(start, end, |parts|).1]) == out
    ensures Cut(range, ver) == Success(out)
  {
  }

  lemma JoinFirstReplaced()
    ensures Join(["", "1", "_", "2", ".", "3"]) == "1_2.3"
  {
    assert Join([".", "3"]) == ".3";
    assert Join(["2", ".", "3"]) == "2.3";
    assert Join(["_", "2", ".", "3"]) == "_2.3";
  }

  /** ver_rs 1-1 _ on 1.2.3 replaces only the separator in front of component 1. */
  lemma RsFirstSeparator()
    ensures Substitute("1.2.3", ["1-1", "_"]) == Success("1_2.3")
  {
    SplitThree();
    ParseOneOne();
    ApplyOneOne();
    JoinFirstReplaced();
    SubstituteFrom("1.2.3", ["1-1", "_"], ["", "1", ".", "2", ".", "3"], [Edit(1, 1, "_")], "1_2.3");
  }

  lemma ParseTwoThree()
    ensures ParseEdits(["2-3", "_"], 4) == Success([Edit(2, 3, "_")])
  {
    OnePair('2', '3', "_", 4);
  }

  lemma ApplyTwoThree()
    ensures ApplyEdits(["", "1", ".", "2", ".", "3", ".", "4"], [Edit(2, 3, "_")])
         == ["", "1", ".", "2", "_", "3", "_", "4"]
  {
    OneEdit(["", "1", ".", "2", ".", "3", ".", "4"], Edit(2, 3, "_"));
  }

  lemma JoinMiddleReplaced()
    ensures Join(["", "1", ".", "2", "_", "3", "_", "4"]) == "1.2_3_4"
  {
    assert Join(["_", "4"]) == "_4";
    assert Join(["_", "3", "_", "4"]) == "_3_4";
    assert Join([".", "2", "_", "3", "_", "4"]) == ".2_3_4";
  }

  /** ver_rs 2-3 _ 1.2.3.4 gives 1.2_3_4. */
  lemma RsMiddleSeparators()
    ensures Substitute("1.2.3.4", ["2-3", "_"]) == Success("1.2_3_4")
  {
    SplitFour();
    ParseTwoThree();
    ApplyTwoThree();
    JoinMiddleReplaced();
    SubstituteFrom("1.2.3.4", ["2-3", "_"], ["", "1", ".", "2", ".", "3", ".", "4"], [Edit(2, 3, "_")], "1.2_3_4");
  }

  lemma ParseMiddle()
    ensures Range.Parse("2-3", 4) == Success((2, 3))
  {
    ValueOneDigit('2');
    ValueOneDigit('3');
    Range.ParseBounded("2", "3", 4);
    assert "2" + "-" + "3" == "2-3";
  }

  lemma JoinMiddle()
    ensures var parts := ["", "1", ".", "2", ".", "3", ".", "4"];
      Join(parts[SliceBounds(2, 3, 8).0..SliceBounds(2, 3, 8).1]) == "2.3"
  {
    var parts := ["", "1", ".", "2", ".", "3", ".", "4"];
    assert SliceBounds(2, 3, 8) == (3, 6);
    assert parts[3..6] == ["2", ".", "3"];
    assert Join(["2", ".", "3"]) == "2.3";
  }

  /** ver_cut 2-3 on 1.2.3.4 gives 2.3. */
  lemma CutMiddle()
    ensures Cut("2-3", "1.2.3.4") == Success("2.3")
  {
    SplitFour();
    ParseMiddle();
    JoinMiddle();
    CutFrom("2-3", "1.2.3.4", ["", "1", ".", "2", ".", "3", ".", "4"], 2, 3, "2.3");
  }

  /** An open range starting past the maximum collapses to a point; one within it runs to the maximum. */
  lemma OpenRanges()
    ensures Range.Parse("5-", 3) == Success((5, 5))
    ensures Range.Parse("2-", 5) == Success((2, 5))
  {
    ValueOneDigit('5');
    ValueOneDigit('2');
    Range.ParseOpen("5", 3);
    Range.ParseOpen("2", 5);
    assert "5" + "-" == "5-" && "2" + "-" == "2-";
  }
}
