/**
 ver_cut: print the part of a version that a range of components addresses.
 Component n (counted from 1) is token n * 2 - 1; range start 0 also takes in the
 leading separator, and the slice always ends with a component.
 */
module VerCut {
  import opened Wrappers
  import opened Builtin
  import Decimal
  import Range
  import opened Tokenizer

  /** The smaller of two lengths, as `cmp::min` gives it. */
  function Min(a: nat, b: nat): (m: nat)
    ensures m <= a && m <= b
    ensures m == a || m == b
  {
    if a <= b then a else b
  }

  /** t occurs in s as a contiguous piece. */
  ghost predicate IsInfix(t: string, s: string) {
    exists i, j :: 0 <= i <= j <= |s| && s[i..j] == t
  }

  /**
   The token indices [lo, hi) that components start..end occupy in a list of len
   tokens: never past the end, and never inverted once start <= end. Start 0
   begins at the leading separator, start n at component n; a bound past the
   last token is clamped to the end of the list.
   */
  function SliceBounds(start: nat, end: nat, len: nat): (b: (nat, nat))
    ensures b.1 <= len
    ensures start <= end ==> b.0 <= b.1
    ensures start == 0 ==> b.0 == 0
    ensures 1 <= start && 2 * start - 1 <= len ==> b.0 == 2 * start - 1
    ensures 1 <= start && 2 * start - 1 > len ==> b.0 == len
    ensures 2 * end <= len ==> b.1 == 2 * end
    ensures 2 * end > len ==> b.1 == len
  {
    var lo := if start == 0 then 0 else Min(2 * start - 1, len);
    (lo, Min(2 * end, len))
  }

  /** The middle of a three-way concatenation is an infix of it. */
  lemma MiddleIsInfix(x: string, y: string, z: string)
    ensures IsInfix(y, x + y + z)
  {
    var s := x + y + z;
    assert s[|x|..|x| + |y|] == y;
  }

  /** Joining three lists one after another is joining their concatenation. */
  lemma JoinThree(a: seq<string>, m: seq<string>, c: seq<string>)
    ensures Join(a + m + c) == Join(a) + Join(m) + Join(c)
  {
    JoinAppend(a + m, c);
    JoinAppend(a, m);
  }

  /** The joined tokens of a slice are a contiguous piece of the joined list. */
  lemma SliceIsInfix(parts: seq<string>, lo: nat, hi: nat)
    requires lo <= hi <= |parts|
    ensures Join(parts) == Join(parts[..lo]) + Join(parts[lo..hi]) + Join(parts[hi..])
    ensures IsInfix(Join(parts[lo..hi]), Join(parts))
  {
    Pieces(parts, 0, lo, hi);
    assert parts[0..] == parts;
    JoinThree(parts[..lo], parts[lo..hi], parts[hi..]);
    MiddleIsInfix(Join(parts[..lo]), Join(parts[lo..hi]), Join(parts[hi..]));
  }

  /** ver_cut on a range and a version: the joined tokens of the addressed slice. */
  function Cut(range: string, ver: string): (r: Result<string, Error>)
    ensures r.Success? ==> IsInfix(r.value, ver)
    ensures r.Failure? <==> Range.Parse(range, |Split(ver)| / 2).Failure?
    ensures r.Failure? ==> r.error == Range.Parse(range, |Split(ver)| / 2).error
  {
    var parts := Split(ver);
    match Range.Parse(range, |parts| / 2)
    case Failure(e) => Failure(e)
    case Success((start, end)) =>
      var (lo, hi) := SliceBounds(start, end, |parts|);
      SplitShape(ver);
      SliceIsInfix(parts, lo, hi);
      Success(Join(parts[lo..hi]))
  }

  /** Cut unfolded once: the parsed range and the slice it selects decide the output. */
  lemma CutOf(range: string, ver: string, start: nat, end: nat, lo: nat, hi: nat, out: string)
    requires Range.Parse(range, |Split(ver)| / 2) == Success((start, end))
    requires SliceBounds(start, end, |Split(ver)|) == (lo, hi)
    requires lo <= hi <= |Split(ver)| && Join(Split(ver)[lo..hi]) == out
    ensures Cut(range, ver) == Success(out)
  {
  }

  /** Range "0-" gives back the whole version. */
  lemma CutAll(ver: string)
    ensures Cut("0-", ver) == Success(ver)
  {
    var parts := Split(ver);
    SplitShape(ver);
    assert Range.Parse("0-", |parts| / 2) == Success((0, |parts| / 2)) by {
      Range.ParseOpen("0", |parts| / 2);
      assert "0" + "-" == "0-";
      assert Decimal.Value("0") == 0 by { assert "0"[..0] == ""; }
    }
    assert SliceBounds(0, |parts| / 2, |parts|) == (0, |parts|) by {
      SplitShape(ver);
    }
    assert parts[0..|parts|] == parts;
    CutOf("0-", ver, 0, |parts| / 2, 0, |parts|, ver);
  }

  /** A single component number n names token 2n - 1, and past the last component the result is empty. */
  lemma CutComponent(ver: string, n: nat)
    requires 1 <= n
    ensures var parts := Split(ver);
      Cut(Decimal.Render(n), ver) == Success(if n <= |parts| / 2 then parts[2 * n - 1] else "")
  {
    var parts := Split(ver);
    Range.ParsePoint(Decimal.Render(n), |parts| / 2);
    if n <= |parts| / 2 {
      assert SliceBounds(n, n, |parts|) == (2 * n - 1, 2 * n);
      assert parts[2 * n - 1..2 * n] == [parts[2 * n - 1]];
      JoinSingle(parts[2 * n - 1]);
      CutOf(Decimal.Render(n), ver, n, n, 2 * n - 1, 2 * n, parts[2 * n - 1]);
    } else {
      assert SliceBounds(n, n, |parts|) == (|parts|, |parts|) by {
        SplitShape(ver);
      }
      assert parts[|parts|..|parts|] == [];
      CutOf(Decimal.Render(n), ver, n, n, |parts|, |parts|, "");
    }
  }

  /**
   "a-b" with 1 <= a <= b gives components a through b with the separators
   between them; a range reaching past the last component stops at the end.
   */
  lemma CutBetween(ver: string, a: nat, b: nat)
    requires 1 <= a <= b
    ensures var parts := Split(ver);
      Cut(Decimal.Render(a) + "-" + Decimal.Render(b), ver)
        == Success(Join(parts[Min(2 * a - 1, |parts|)..Min(2 * b, |parts|)]))
  {
    var parts := Split(ver);
    var range := Decimal.Render(a) + "-" + Decimal.Render(b);
    Range.ParseBounded(Decimal.Render(a), Decimal.Render(b), |parts| / 2);
    var lo, hi := Min(2 * a - 1, |parts|), Min(2 * b, |parts|);
    assert SliceBounds(a, b, |parts|) == (lo, hi);
    CutOf(range, ver, a, b, lo, hi, Join(parts[lo..hi]));
  }

  /** The range "0-k" parses to (0, k) whatever the maximum. */
  lemma ParseUpTo(k: nat, max: nat)
    ensures Range.Parse("0-" + Decimal.Render(k), max) == Success((0, k))
  {
    assert Decimal.Value("0") == 0 by { assert "0"[..0] == ""; }
    Range.ParseBounded("0", Decimal.Render(k), max);
    assert "0" + "-" + Decimal.Render(k) == "0-" + Decimal.Render(k);
  }

  /** "0-k" gives everything up to the end of component k, the leading separator included. */
  lemma CutPrefix(ver: string, k: nat)
    requires 2 * k <= |Split(ver)|
    ensures Cut("0-" + Decimal.Render(k), ver) == Success(Join(Split(ver)[..2 * k]))
  {
    var parts := Split(ver);
    var range := "0-" + Decimal.Render(k);
    ParseUpTo(k, |parts| / 2);
    assert parts[0..2 * k] == parts[..2 * k];
    CutOf(range, ver, 0, k, 0, 2 * k, Join(parts[..2 * k]));
  }

  /** "k-", for a component k that exists, gives component k and everything after it. */
  lemma CutSuffix(ver: string, k: nat)
    requires 1 <= k <= |Split(ver)| / 2
    ensures Cut(Decimal.Render(k) + "-", ver) == Success(Join(Split(ver)[2 * k - 1..]))
  {
    var parts := Split(ver);
    var range := Decimal.Render(k) + "-";
    assert Range.Parse(range, |parts| / 2) == Success((k, |parts| / 2)) by {
      Range.ParseOpen(Decimal.Render(k), |parts| / 2);
    }
    assert SliceBounds(k, |parts| / 2, |parts|) == (2 * k - 1, |parts|) by {
      SplitShape(ver);
    }
    assert parts[2 * k - 1..|parts|] == parts[2 * k - 1..];
    CutOf(range, ver, k, |parts| / 2, 2 * k - 1, |parts|, Join(parts[2 * k - 1..]));
  }

  /** A list joins to what comes before token i, token i, and what comes after it. */
  lemma JoinAround(parts: seq<string>, i: nat)
    requires i < |parts|
    ensures Join(parts[..i]) + parts[i] + Join(parts[i + 1..]) == Join(parts)
  {
    SliceIsInfix(parts, i, i + 1);
    assert parts[i..i + 1] == [parts[i]];
    JoinSingle(parts[i]);
  }

  /**
   Adjacent ranges tile the version: the components up to k, the separator in
   front of component k + 1, and the components from k + 1 on give back the input.
   */
  lemma CutTiling(ver: string, k: nat)
    requires k < |Split(ver)| / 2
    ensures var parts := Split(ver);
      && Cut("0-" + Decimal.Render(k), ver).Success?
      && Cut(Decimal.Render(k + 1) + "-", ver).Success?
      && Cut("0-" + Decimal.Render(k), ver).value + parts[2 * k]
           + Cut(Decimal.Render(k + 1) + "-", ver).value == ver
  {
    var parts := Split(ver);
    var pre, suf := Join(parts[..2 * k]), Join(parts[2 * k + 1..]);
    SplitShape(ver);
    JoinAround(parts, 2 * k);
    CutPrefix(ver, k);
    CutSuffix(ver, k + 1);
    assert 2 * (k + 1) - 1 == 2 * k + 1;
    Concatenated(ver, "0-" + Decimal.Render(k), Decimal.Render(k + 1) + "-", pre, parts[2 * k], suf);
  }

  /**
   Two cuts known to succeed, with the piece between them, rebuild the version.
   It only restates its requires in terms of `Cut`'s value; it keeps the
   unfolding of `Cut` out of `CutTiling`'s proof.
   */
  lemma Concatenated(ver: string, r1: string, r2: string, pre: string, mid: string, suf: string)
    requires Cut(r1, ver) == Success(pre) && Cut(r2, ver) == Success(suf)
    requires pre + mid + suf == ver
    ensures Cut(r1, ver).Success? && Cut(r2, ver).Success?
    ensures Cut(r1, ver).value + mid + Cut(r2, ver).value == ver
  {
  }

  /**
   `pkgcraft_ver_cut`: one argument is the range applied to PV (null meaning "");
   two are the range and the version; any other count is an error. What is
   printed is always a contiguous piece of the version operand.
   */
  function VerCut(args: seq<string>, pv: Option<string>): (r: Result<string, Error>)
    ensures |args| != 1 && |args| != 2 <==> r == Failure(CutArgCount(|args|))
    ensures |args| == 1 ==> r == Cut(args[0], Fallback(pv))
    ensures |args| == 2 ==> r == Cut(args[0], args[1])
    ensures r.Success? ==> IsInfix(r.value, if |args| == 1 then Fallback(pv) else args[1])
  {
    if |args| == 1 then Cut(args[0], Fallback(pv))
    else if |args| == 2 then Cut(args[0], args[1])
    else Failure(CutArgCount(|args|))
  }

  /**
   The older `ver_cut` of src/lib.rs: argv[0] is skipped and one argument reads PV
   from the environment, failing when it is not set.
   */
  function LibVerCut(argv: seq<string>, pvEnv: Option<string>): (r: Result<string, Error>)
    ensures var args := if argv == [] then [] else argv[1..];
      && (|args| == 1 && pvEnv.None? ==> r == Failure(EnvNotFound("PV")))
      && (|args| == 1 && pvEnv.Some? ==> r == Cut(args[0], pvEnv.value))
      && (|args| == 2 ==> r == Cut(args[0], args[1]))
      && (|args| != 1 && |args| != 2 ==> r == Failure(CutArgCount(|args|)))
  {
    var args := if argv == [] then [] else argv[1..];
    if |args| == 1 then
      if pvEnv.None? then Failure(EnvNotFound("PV")) else Cut(args[0], pvEnv.value)
    else VerCut(args, None)
  }
}
