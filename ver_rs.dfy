/**
 ver_rs: replace the separators in front of the components a range addresses.
 The token list of the version is overwritten in place, one (range, separator)
 pair after another, and then joined back into a string.
 */
module VerRs {
  import opened Wrappers
  import opened Builtin
  import Range
  import opened Tokenizer

  /** A parsed (range, separator) pair: components start..end get sep in front of them. */
  datatype Edit = Edit(start: nat, end: nat, sep: string)

  /** Token slot i is the separator in front of a component the edit addresses. */
  predicate Covers(e: Edit, i: nat) {
    i % 2 == 0 && e.start <= i / 2 <= e.end
  }

  /** The token list after one edit: every covered slot that exists holds the new separator. */
  function Overwrite(parts: seq<string>, e: Edit): seq<string> {
    seq(|parts|, i requires 0 <= i < |parts| => if Covers(e, i) then e.sep else parts[i])
  }

  /** The token list after a sequence of edits, applied first to last. */
  function ApplyEdits(parts: seq<string>, edits: seq<Edit>): seq<string>
    decreases |edits|
  {
    if edits == [] then parts
    else Overwrite(ApplyEdits(parts, edits[..|edits| - 1]), edits[|edits| - 1])
  }

  /**
   The pairs of chunks parsed in order against max; the first range that does
   not parse decides the error.
   */
  function ParseEdits(chunks: seq<string>, max: nat): Result<seq<Edit>, Error>
    requires |chunks| % 2 == 0
    decreases |chunks|
  {
    if chunks == [] then Success([])
    else
      var n := |chunks|;
      match ParseEdits(chunks[..n - 2], max)
      case Failure(e) => Failure(e)
      case Success(edits) =>
        match Range.Parse(chunks[n - 2], max)
        case Failure(e) => Failure(e)
        case Success((start, end)) => Success(edits + [Edit(start, end, chunks[n - 1])])
  }

  /** ver_rs on a version and its flat list of (range, separator) arguments. */
  function Substitute(ver: string, chunks: seq<string>): Result<string, Error>
    requires |chunks| % 2 == 0
  {
    var parts := Split(ver);
    match ParseEdits(chunks, |parts| / 2)
    case Failure(e) => Failure(e)
    case Success(edits) => Success(Join(ApplyEdits(parts, edits)))
  }

  /** Edits never change the length of the token list. */
  lemma {:induction false} EditsKeepLength(parts: seq<string>, edits: seq<Edit>)
    ensures |ApplyEdits(parts, edits)| == |parts|
    decreases |edits|
  {
    if edits != [] {
      EditsKeepLength(parts, edits[..|edits| - 1]);
    }
  }

  /** A slot that no edit covers keeps its original token. */
  lemma {:induction false} UncoveredUnchanged(parts: seq<string>, edits: seq<Edit>, i: nat)
    requires i < |parts|
    requires forall j :: 0 <= j < |edits| ==> !Covers(edits[j], i)
    ensures |ApplyEdits(parts, edits)| == |parts|
    ensures ApplyEdits(parts, edits)[i] == parts[i]
    decreases |edits|
  {
    EditsKeepLength(parts, edits);
    if edits != [] {
      UncoveredUnchanged(parts, edits[..|edits| - 1], i);
    }
  }

  /** Only separator slots change: the length and every component slot are preserved. */
  lemma ComponentsUnchanged(parts: seq<string>, edits: seq<Edit>)
    ensures |ApplyEdits(parts, edits)| == |parts|
    ensures forall i :: 0 <= i < |parts| && i % 2 == 1 ==> ApplyEdits(parts, edits)[i] == parts[i]
  {
    EditsKeepLength(parts, edits);
    forall i | 0 <= i < |parts| && i % 2 == 1
      ensures ApplyEdits(parts, edits)[i] == parts[i]
    {
      UncoveredUnchanged(parts, edits, i);
    }
  }

  /**
   Last write wins: a covered slot holds the separator of the last edit that
   covers it, whatever the edits before it wrote.
   */
  lemma {:induction false} LastWriteWins(parts: seq<string>, edits: seq<Edit>, i: nat, k: nat)
    requires i < |parts| && k < |edits|
    requires Covers(edits[k], i)
    requires forall j :: k < j < |edits| ==> !Covers(edits[j], i)
    ensures |ApplyEdits(parts, edits)| == |parts|
    ensures ApplyEdits(parts, edits)[i] == edits[k].sep
    decreases |edits|
  {
    var n := |edits|;
    EditsKeepLength(parts, edits[..n - 1]);
    if k < n - 1 {
      LastWriteWins(parts, edits[..n - 1], i, k);
    }
  }

  /** Every slot holds its original token or the separator of one of the edits. */
  lemma {:induction false} SlotOrigin(parts: seq<string>, edits: seq<Edit>, i: nat)
    requires i < |parts|
    ensures |ApplyEdits(parts, edits)| == |parts|
    ensures ApplyEdits(parts, edits)[i] == parts[i] ||
            exists j :: 0 <= j < |edits| && ApplyEdits(parts, edits)[i] == edits[j].sep
    decreases |edits|
  {
    EditsKeepLength(parts, edits);
    if edits != [] {
      var n := |edits|;
      var prev := edits[..n - 1];
      EditsKeepLength(parts, prev);
      SlotOrigin(parts, prev, i);
      var t := ApplyEdits(parts, edits)[i];
      if Covers(edits[n - 1], i) {
        assert t == edits[n - 1].sep;
      } else {
        assert t == ApplyEdits(parts, prev)[i];
        if t != parts[i] {
          var j :| 0 <= j < |prev| && t == prev[j].sep;
          assert edits[j] == prev[j];
        }
      }
    }
  }

  /** Once a prefix of the pairs fails to parse, the whole list fails with the same error. */
  lemma {:induction false} FailurePersists(chunks: seq<string>, m: nat, max: nat)
    requires |chunks| % 2 == 0 && m % 2 == 0 && m <= |chunks|
    requires ParseEdits(chunks[..m], max).Failure?
    ensures ParseEdits(chunks, max) == ParseEdits(chunks[..m], max)
    decreases |chunks|
  {
    if m < |chunks| {
      var n := |chunks|;
      assert chunks[..n - 2][..m] == chunks[..m];
      FailurePersists(chunks[..n - 2], m, max);
    } else {
      assert chunks[..m] == chunks;
    }
  }

  /** After k pairs parsed, a failing pair k makes the whole list fail with its error. */
  lemma ParseEditsFailsAt(chunks: seq<string>, k: nat, max: nat, edits: seq<Edit>)
    requires |chunks| % 2 == 0 && 2 * k + 2 <= |chunks|
    requires ParseEdits(chunks[..2 * k], max) == Success(edits)
    requires Range.Parse(chunks[2 * k], max).Failure?
    ensures ParseEdits(chunks, max) == Failure(Range.Parse(chunks[2 * k], max).error)
  {
    var c := chunks[..2 * k + 2];
    assert c[..|c| - 2] == chunks[..2 * k];
    FailurePersists(chunks, 2 * k + 2, max);
  }

  /** After k pairs parsed, a parsing pair k extends the edits by one. */
  lemma ParseEditsExtends(chunks: seq<string>, k: nat, max: nat, edits: seq<Edit>, start: nat, end: nat)
    requires |chunks| % 2 == 0 && 2 * k + 2 <= |chunks|
    requires ParseEdits(chunks[..2 * k], max) == Success(edits)
    requires Range.Parse(chunks[2 * k], max) == Success((start, end))
    ensures ParseEdits(chunks[..2 * k + 2], max) == Success(edits + [Edit(start, end, chunks[2 * k + 1])])
  {
    var c := chunks[..2 * k + 2];
    assert c[..|c| - 2] == chunks[..2 * k];
  }

  lemma ApplyEditsSnoc(parts: seq<string>, edits: seq<Edit>, e: Edit)
    ensures ApplyEdits(parts, edits + [e]) == Overwrite(ApplyEdits(parts, edits), e)
  {
    assert (edits + [e])[..|edits|] == edits;
  }

  /** On success there is one edit per pair. */
  lemma {:induction false} ParseEditsLength(chunks: seq<string>, max: nat)
    requires |chunks| % 2 == 0
    requires ParseEdits(chunks, max).Success?
    ensures |ParseEdits(chunks, max).value| == |chunks| / 2
    decreases |chunks|
  {
    if chunks != [] {
      ParseEditsLength(chunks[..|chunks| - 2], max);
    }
  }

  /** Edit j is what pair j parses to: the bounds of its range and its separator. */
  lemma {:induction false} ParseEditsEntry(chunks: seq<string>, max: nat, j: nat)
    requires |chunks| % 2 == 0 && j < |chunks| / 2
    requires ParseEdits(chunks, max).Success?
    ensures |ParseEdits(chunks, max).value| == |chunks| / 2
    ensures var e := ParseEdits(chunks, max).value[j];
      && Range.Parse(chunks[2 * j], max) == Success((e.start, e.end))
      && e.sep == chunks[2 * j + 1]
    decreases |chunks|
  {
    var n := |chunks|;
    var prefix := chunks[..n - 2];
    ParseEditsLength(chunks, max);
    ParseEditsLength(prefix, max);
    if 2 * j < n - 2 {
      ParseEditsEntry(prefix, max, j);
      assert prefix[2 * j] == chunks[2 * j] && prefix[2 * j + 1] == chunks[2 * j + 1];
    } else {
      assert 2 * j == n - 2;
    }
  }

  /**
   On success there is one edit per pair: its bounds are what the pair's range
   parses to (so start <= end) and its separator is the pair's second argument.
   */
  lemma ParseEditsContents(chunks: seq<string>, max: nat)
    requires |chunks| % 2 == 0
    requires ParseEdits(chunks, max).Success?
    ensures var edits := ParseEdits(chunks, max).value;
      && |edits| == |chunks| / 2
      && forall j :: 0 <= j < |edits| ==>
           && Range.Parse(chunks[2 * j], max) == Success((edits[j].start, edits[j].end))
           && edits[j].start <= edits[j].end
           && edits[j].sep == chunks[2 * j + 1]
  {
    var edits := ParseEdits(chunks, max).value;
    ParseEditsLength(chunks, max);
    forall j | 0 <= j < |edits|
      ensures Range.Parse(chunks[2 * j], max) == Success((edits[j].start, edits[j].end))
      ensures edits[j].start <= edits[j].end
      ensures edits[j].sep == chunks[2 * j + 1]
    {
      ParseEditsEntry(chunks, max, j);
    }
  }

  /** The error reported is that of the first pair whose range does not parse. */
  lemma {:induction false} ParseEditsFirstFailure(chunks: seq<string>, max: nat, k: nat)
    requires |chunks| % 2 == 0 && 2 * k < |chunks|
    requires forall j :: 0 <= j < k ==> Range.Parse(chunks[2 * j], max).Success?
    requires Range.Parse(chunks[2 * k], max).Failure?
    ensures ParseEdits(chunks, max) == Failure(Range.Parse(chunks[2 * k], max).error)
    decreases |chunks|
  {
    var n := |chunks|;
    var prefix := chunks[..n - 2];
    if 2 * k < n - 2 {
      forall j | 0 <= j < k ensures Range.Parse(prefix[2 * j], max).Success? {
        assert prefix[2 * j] == chunks[2 * j];
      }
      assert prefix[2 * k] == chunks[2 * k];
      ParseEditsFirstFailure(prefix, max, k);
    } else {
      ParseEditsAllSucceed(prefix, max);
    }
  }

  /** When every range parses, so does the whole list. */
  lemma {:induction false} ParseEditsAllSucceed(chunks: seq<string>, max: nat)
    requires |chunks| % 2 == 0
    requires forall j :: 0 <= j < |chunks| / 2 ==> Range.Parse(chunks[2 * j], max).Success?
    ensures ParseEdits(chunks, max).Success?
    decreases |chunks|
  {
    if chunks != [] {
      var n := |chunks|;
      var prefix := chunks[..n - 2];
      forall j | 0 <= j < |prefix| / 2 ensures Range.Parse(prefix[2 * j], max).Success? {
        assert prefix[2 * j] == chunks[2 * j];
      }
      ParseEditsAllSucceed(prefix, max);
      assert chunks[n - 2] == chunks[2 * (n / 2 - 1)];
    }
  }

  /**
   What ver_rs prints is the version's token list with every component kept and
   every slot either kept or holding one of the requested separators.
   */
  lemma SubstituteSeparators(ver: string, chunks: seq<string>)
    requires |chunks| % 2 == 0 && Substitute(ver, chunks).Success?
    ensures var parts := Split(ver);
      exists out: seq<string> ::
        && Join(out) == Substitute(ver, chunks).value
        && |out| == |parts|
        && (forall i :: 0 <= i < |parts| && i % 2 == 1 ==> out[i] == parts[i])
        && (forall i :: 0 <= i < |parts| ==>
              out[i] == parts[i] || exists j :: 0 <= j < |chunks| / 2 && out[i] == chunks[2 * j + 1])
  {
    var parts := Split(ver);
    var max := |parts| / 2;
    var edits := ParseEdits(chunks, max).value;
    var out := ApplyEdits(parts, edits);
    ComponentsUnchanged(parts, edits);
    ParseEditsLength(chunks, max);
    forall i | 0 <= i < |parts|
      ensures out[i] == parts[i] || exists j :: 0 <= j < |chunks| / 2 && out[i] == chunks[2 * j + 1]
    {
      SlotOrigin(parts, edits, i);
      if out[i] != parts[i] {
        var j :| 0 <= j < |edits| && out[i] == edits[j].sep;
        ParseEditsEntry(chunks, max, j);
      }
    }
    assert Join(out) == Substitute(ver, chunks).value;
  }

  /** ver_rs.rs:53-58: overwrite separator slot 2n for every n in start..=end that exists. */
  method ReplaceSeparators(parts: array<string>, start: nat, end: nat, sep: string)
    modifies parts
    ensures parts[..] == Overwrite(old(parts[..]), Edit(start, end, sep))
  {
    ghost var before := parts[..];
    var n := start;
    while n <= end
      invariant start <= n && (n <= end + 1 || n == start)
      invariant forall i :: 0 <= i < parts.Length ==>
        parts[i] == if i % 2 == 0 && start <= i / 2 < n then sep else before[i]
    {
      var idx := n * 2;
      if idx < parts.Length {
        parts[idx] := sep;
      }
      n := n + 1;
    }
  }

  /**
   ver_rs.rs:50-59: parse each (range, separator) pair against half the list length
   and apply it in place, stopping at the first range that does not parse. After
   a failure the array is left partly edited and nothing reads it again: the
   source returns and drops `version_parts`, and `SubstituteInPlace` discards it.
   */
  method ApplyPairs(parts: array<string>, chunks: seq<string>) returns (err: Option<Error>)
    requires |chunks| % 2 == 0
    modifies parts
    ensures var parsed := ParseEdits(chunks, parts.Length / 2);
      && (parsed.Failure? ==> err == Some(parsed.error))
      && (parsed.Success? ==> err == None && parts[..] == ApplyEdits(old(parts[..]), parsed.value))
  {
    ghost var original := parts[..];
    var max := parts.Length / 2;
    var k := 0;
    ghost var edits: seq<Edit> := [];
    while k < |chunks| / 2
      invariant 0 <= k <= |chunks| / 2
      invariant ParseEdits(chunks[..2 * k], max) == Success(edits)
      invariant parts[..] == ApplyEdits(original, edits)
    {
      var range, sep := chunks[2 * k], chunks[2 * k + 1];
      var parsed := Range.Parse(range, max);
      if parsed.Failure? {
        ParseEditsFailsAt(chunks, k, max, edits);
        return Some(parsed.error);
      }
      var (start, end) := parsed.value;
      ParseEditsExtends(chunks, k, max, edits, start, end);
      ReplaceSeparators(parts, start, end, sep);
      ApplyEditsSnoc(original, edits, Edit(start, end, sep));
      edits := edits + [Edit(start, end, sep)];
      k := k + 1;
    }
    assert chunks[..2 * k] == chunks;
    err := None;
  }

  /** The shared body of ver_rs: split the version, apply the pairs, join the tokens. */
  method SubstituteInPlace(ver: string, chunks: seq<string>) returns (r: Result<string, Error>)
    requires |chunks| % 2 == 0
    ensures r == Substitute(ver, chunks)
  {
    var split := VersionSplit(ver);
    var parts := new string[|split|](i requires 0 <= i < |split| => split[i]);
    assert parts[..] == split;
    var err := ApplyPairs(parts, chunks);
    if err.Some? {
      return Failure(err.value);
    }
    r := Success(Join(parts[..]));
  }

  /**
   `pkgcraft_ver_rs`: fewer than two arguments is an error; an even count takes the
   version from PV (null meaning "") and pairs up every argument; an odd count
   pops the last argument as the version and pairs up the rest.
   */
  method VerRs(args: seq<string>, pv: Option<string>) returns (r: Result<string, Error>)
    ensures |args| < 2 ==> r == Failure(RsArgCount(|args|))
    ensures |args| >= 2 && |args| % 2 == 0 ==> r == Substitute(Fallback(pv), args)
    ensures |args| >= 2 && |args| % 2 == 1 ==> r == Substitute(args[|args| - 1], args[..|args| - 1])
  {
    var rest := args;
    var ver: string;
    if |rest| < 2 {
      return Failure(RsArgCount(|rest|));
    } else if |rest| % 2 == 0 {
      ver := Fallback(pv);
    } else {
      ver := rest[|rest| - 1];
      rest := rest[..|rest| - 1];
    }
    r := SubstituteInPlace(ver, rest);
  }

  /**
   The older `ver_rs` of src/lib.rs: argv[0] is skipped, and an even count reads PV
   from the environment, failing when it is not set.
   */
  method LibVerRs(argv: seq<string>, pvEnv: Option<string>) returns (r: Result<string, Error>)
    ensures var args := if argv == [] then [] else argv[1..];
      && (|args| < 2 ==> r == Failure(RsArgCount(|args|)))
      && (|args| >= 2 && |args| % 2 == 0 ==>
            r == if pvEnv.None? then Failure(EnvNotFound("PV")) else Substitute(pvEnv.value, args))
      && (|args| >= 2 && |args| % 2 == 1 ==> r == Substitute(args[|args| - 1], args[..|args| - 1]))
  {
    var rest := if argv == [] then [] else argv[1..];
    var ver: string;
    if |rest| < 2 {
      return Failure(RsArgCount(|rest|));
    } else if |rest| % 2 == 0 {
      if pvEnv.None? {
        return Failure(EnvNotFound("PV"));
      }
      ver := pvEnv.value;
    } else {
      ver := rest[|rest| - 1];
      rest := rest[..|rest| - 1];
    }
    r := SubstituteInPlace(ver, rest);
  }
}
