/**
 has: is the first argument among the arguments after it? argv still holds the
 builtin's own name at index 0, which is skipped.
 */
module Has {
  import opened Wrappers
  import opened Builtin

  /**
   `has`: an error when nothing follows the name; otherwise whether some later
   argument equals the needle (the needle itself does not count).
   */
  function Has(argv: seq<string>): (r: Result<bool, Error>)
    requires |argv| >= 1
    ensures r.Failure? <==> |argv| == 1
    ensures r.Failure? ==> r.error == NoNeedle
    ensures r.Success? ==> (r.value <==> exists i :: 2 <= i < |argv| && argv[i] == argv[1])
  {
    var args := argv[1..];
    if args == [] then Failure(NoNeedle)
    else
      var needle, haystack := args[0], args[1..];
      assert forall i :: 2 <= i < |argv| ==> argv[i] == haystack[i - 2];
      Success(needle in haystack)
  }

  /** A needle with nothing after it is not found. */
  lemma NeedleAlone(prog: string, needle: string)
    ensures Has([prog, needle]) == Success(false)
  {
  }

  /** The answer depends only on the needle and the set of later arguments, not on their order. */
  lemma HaystackOrderIrrelevant(prog: string, needle: string, xs: seq<string>, ys: seq<string>)
    requires multiset(xs) == multiset(ys)
    ensures Has([prog, needle] + xs) == Has([prog, needle] + ys)
  {
    assert ([prog, needle] + xs)[1..][1..] == xs;
    assert ([prog, needle] + ys)[1..][1..] == ys;
    assert needle in xs <==> needle in multiset(xs);
    assert needle in ys <==> needle in multiset(ys);
  }
}
