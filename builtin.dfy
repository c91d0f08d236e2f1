/**
 Conventions the version builtins share at the C boundary: the failures they
 report, the message each one records as the last error, the integer codes they
 return, and the fallback version passed in as a possibly null pointer.
 */
module Builtin {
  import opened Wrappers
  import Decimal

  datatype Error =
    | InvalidRange(spec: string)          // the range text does not match the grammar
    | InvertedRange(start: nat, end: nat) // a literal "N-M" range with M < N
    | RsArgCount(got: nat)                // ver_rs called with fewer than 2 arguments
    | CutArgCount(got: nat)               // ver_cut called with other than 1 or 2 arguments
    | TestArgCount(got: nat)              // ver_test called with other than 2 or 3 arguments
    | PvrUndefined                        // ver_test with 2 arguments and an empty or null PVR
    | VersionError(message: string)       // the version parser's own error, passed through
    | InvalidOperator(op: string)         // ver_test operator outside the table
    | NoNeedle                            // has called with no argument after the name
    | EnvNotFound(name: string)           // the environment variable is missing or not unicode

  /** Rust's `{:?}` of a string, without its escaping of quotes, backslashes and control characters. */
  function Quoted(s: string): string {
    "\"" + s + "\""
  }

  /** The text recorded as the last error. */
  function Message(e: Error): string {
    match e
    case InvalidRange(spec) => "invalid range: " + Quoted(spec)
    case InvertedRange(start, end) =>
      "start of range (" + Decimal.Render(start) + ") is greater than end (" + Decimal.Render(end) + ")"
    case RsArgCount(n) => "requires 2 or more args, got " + Decimal.Render(n)
    case CutArgCount(n) => "requires 1 or 2 args, got " + Decimal.Render(n)
    case TestArgCount(n) => "only accepts 2 or 3 args, got " + Decimal.Render(n)
    case PvrUndefined => "$PVR is undefined"
    case VersionError(message) => message
    case InvalidOperator(op) => "invalid operator: " + Quoted(op)
    case NoNeedle => "requires 1 or more args"
    case EnvNotFound(name) => "environment variable not found: " + Quoted(name)
  }

  /**
   An argument-count message ends with the count in decimal after a space, so
   the number the caller passed can be read back from it.
   */
  lemma MessageReportsCount(e: Error)
    requires e.RsArgCount? || e.CutArgCount? || e.TestArgCount?
    ensures var m := Message(e);
      exists i :: 0 < i < |m| && m[i - 1] == ' ' && Decimal.IsNumeral(m[i..]) && Decimal.Value(m[i..]) == e.got
  {
    var m := Message(e);
    var digits := Decimal.Render(e.got);
    var prefix := m[..|m| - |digits|];
    assert m == prefix + digits;
    assert m[|m| - |digits|..] == digits;
  }

  /** Return code of ver_rs and ver_cut: 0 once the result is printed, -1 on error. */
  function OutputCode(r: Result<string, Error>): (code: int)
    ensures code == 0 <==> r.Success?
    ensures code == -1 <==> r.Failure?
  {
    if r.Success? then 0 else -1
  }

  /** Return code of ver_test and has: `!ret as c_int` on success, -1 on error. */
  function TestCode(r: Result<bool, Error>): (code: int)
    ensures code == 0 <==> r == Success(true)
    ensures code == 1 <==> r == Success(false)
    ensures code == -1 <==> r.Failure?
  {
    match r
    case Success(b) => if b then 0 else 1
    case Failure(_) => -1
  }

  /**
   The PV or PVR pointer handed to the builtin: a null pointer stands for "",
   so the builtin cannot tell it from an empty string.
   */
  function Fallback(ptr: Option<string>): (v: string)
    ensures ptr.Some? ==> v == ptr.value
    ensures v == "" <==> ptr == None || ptr == Some("")
  {
    match ptr
    case Some(v) => v
    case None => ""
  }
}
