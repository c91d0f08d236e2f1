/**
 ver_test: compare two versions with one of six operators. Version parsing and
 the version order belong to another library; here they are parameters: a parser
 that yields a version or its error message, and a three-way comparison from
 which the six relations are derived.
 */
module VerTest {
  import opened Wrappers
  import opened Builtin

  datatype Ordering = Less | Equal | Greater

  /** A three-way comparison that behaves as a total order. */
  ghost predicate IsTotalOrder<V(!new)>(cmp: (V, V) -> Ordering) {
    && (forall a :: cmp(a, a) == Equal)
    && (forall a, b :: cmp(a, b) == Less <==> cmp(b, a) == Greater)
    && (forall a, b, c :: cmp(a, b) != Greater && cmp(b, c) != Greater ==> cmp(a, c) != Greater)
  }

  /** The operator table: the relation each operator tests, or None for any other text. */
  function Holds(op: string, o: Ordering): (r: Option<bool>)
    ensures r.None? <==> op !in {"-eq", "-ne", "-lt", "-gt", "-le", "-ge"}
  {
    match op
    case "-eq" => Some(o == Equal)
    case "-ne" => Some(o != Equal)
    case "-lt" => Some(o == Less)
    case "-gt" => Some(o == Greater)
    case "-le" => Some(o != Greater)
    case "-ge" => Some(o != Less)
    case _ => None
  }

  /**
   Both versions are parsed, left first, before the operator is looked at; so an
   unparsable version is reported even when the operator is invalid too.
   */
  function Compare<V>(lhs: string, op: string, rhs: string,
                      parse: string -> Result<V, string>, cmp: (V, V) -> Ordering): (r: Result<bool, Error>)
    ensures parse(lhs).Failure? ==> r == Failure(VersionError(parse(lhs).error))
    ensures parse(lhs).Success? && parse(rhs).Failure? ==> r == Failure(VersionError(parse(rhs).error))
    ensures parse(lhs).Success? && parse(rhs).Success? ==>
      r == match Holds(op, cmp(parse(lhs).value, parse(rhs).value))
           case None => Failure(InvalidOperator(op))
           case Some(b) => Success(b)
  {
    match parse(lhs)
    case Failure(e) => Failure(VersionError(e))
    case Success(l) =>
      match parse(rhs)
      case Failure(e) => Failure(VersionError(e))
      case Success(r) =>
        match Holds(op, cmp(l, r))
        case None => Failure(InvalidOperator(op))
        case Some(b) => Success(b)
  }

  /**
   `pkgcraft_ver_test`: two arguments are (operator, version) tested against PVR,
   which must be neither null nor empty; three are (version, operator, version);
   any other count is an error.
   */
  function VerTest<V>(args: seq<string>, pvr: Option<string>,
                      parse: string -> Result<V, string>, cmp: (V, V) -> Ordering): (r: Result<bool, Error>)
    ensures |args| != 2 && |args| != 3 ==> r == Failure(TestArgCount(|args|))
    ensures |args| == 2 && Fallback(pvr) == "" ==> r == Failure(PvrUndefined)
    ensures |args| == 2 && Fallback(pvr) != "" ==> r == Compare(Fallback(pvr), args[0], args[1], parse, cmp)
    ensures |args| == 3 ==> r == Compare(args[0], args[1], args[2], parse, cmp)
  {
    if |args| == 2 then
      var v := Fallback(pvr);
      if v == "" then Failure(PvrUndefined) else Compare(v, args[0], args[1], parse, cmp)
    else if |args| == 3 then Compare(args[0], args[1], args[2], parse, cmp)
    else Failure(TestArgCount(|args|))
  }

  /**
   The older `ver_test` of src/lib.rs: argv[0] is skipped and PVR is read from the
   environment; only a missing variable is an error, an empty one is parsed.
   */
  function LibVerTest<V>(argv: seq<string>, pvrEnv: Option<string>,
                         parse: string -> Result<V, string>, cmp: (V, V) -> Ordering): (r: Result<bool, Error>)
    ensures var args := if argv == [] then [] else argv[1..];
      && (|args| == 2 && pvrEnv.None? ==> r == Failure(EnvNotFound("PVR")))
      && (|args| == 2 && pvrEnv.Some? ==> r == Compare(pvrEnv.value, args[0], args[1], parse, cmp))
      && (|args| != 2 ==> r == VerTest(args, pvrEnv, parse, cmp))
  {
    var args := if argv == [] then [] else argv[1..];
    if |args| == 2 then
      match pvrEnv
      case None => Failure(EnvNotFound("PVR"))
      case Some(v) => Compare(v, args[0], args[1], parse, cmp)
    else VerTest(args, pvrEnv, parse, cmp)
  }

  /** Both entry points agree except on an empty PVR, which only the newer one refuses up front. */
  lemma LibAgreesWithBuiltin<V>(argv: seq<string>, pvr: string,
                                parse: string -> Result<V, string>, cmp: (V, V) -> Ordering)
    requires pvr != ""
    ensures LibVerTest(argv, Some(pvr), parse, cmp) ==
      VerTest(if argv == [] then [] else argv[1..], Some(pvr), parse, cmp)
  {
  }

  /**
   With both versions parsed, -eq and -ne give opposite codes, and so do -lt and
   -ge, and -gt and -le.
   */
  lemma ComplementaryOperators<V>(lhs: string, rhs: string,
                                  parse: string -> Result<V, string>, cmp: (V, V) -> Ordering)
    requires parse(lhs).Success? && parse(rhs).Success?
    ensures TestCode(Compare(lhs, "-eq", rhs, parse, cmp)) == 1 - TestCode(Compare(lhs, "-ne", rhs, parse, cmp))
    ensures TestCode(Compare(lhs, "-lt", rhs, parse, cmp)) == 1 - TestCode(Compare(lhs, "-ge", rhs, parse, cmp))
    ensures TestCode(Compare(lhs, "-gt", rhs, parse, cmp)) == 1 - TestCode(Compare(lhs, "-le", rhs, parse, cmp))
  {
  }

  /** Under a total order, swapping the operands turns -lt into -gt and -le into -ge. */
  lemma SwappedOperands<V(!new)>(lhs: string, rhs: string,
                                 parse: string -> Result<V, string>, cmp: (V, V) -> Ordering)
    requires IsTotalOrder(cmp)
    requires parse(lhs).Success? && parse(rhs).Success?
    ensures Compare(lhs, "-lt", rhs, parse, cmp) == Compare(rhs, "-gt", lhs, parse, cmp)
    ensures Compare(lhs, "-le", rhs, parse, cmp) == Compare(rhs, "-ge", lhs, parse, cmp)
    ensures Compare(lhs, "-eq", rhs, parse, cmp) == Compare(rhs, "-eq", lhs, parse, cmp)
  {
    var l, r := parse(lhs).value, parse(rhs).value;
    assert cmp(l, r) == Less <==> cmp(r, l) == Greater;
    assert cmp(r, l) == Less <==> cmp(l, r) == Greater;
  }

  /** Under a total order every parsable version is -eq, -le and -ge to itself and not -lt. */
  lemma Reflexive<V(!new)>(v: string, parse: string -> Result<V, string>, cmp: (V, V) -> Ordering)
    requires IsTotalOrder(cmp)
    requires parse(v).Success?
    ensures Compare(v, "-eq", v, parse, cmp) == Success(true)
    ensures Compare(v, "-le", v, parse, cmp) == Success(true)
    ensures Compare(v, "-ge", v, parse, cmp) == Success(true)
    ensures Compare(v, "-lt", v, parse, cmp) == Success(false)
  {
    assert cmp(parse(v).value, parse(v).value) == Equal;
  }
}
