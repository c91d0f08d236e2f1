# Version builtins of pkgcraft-c, modelled in Dafny

pkgcraft-c exposes the ebuild version helpers of the Package Manager
Specification (section 12.3.14 of PMS) to C callers:

- `ver_rs` replaces separators in a version string.
- `ver_cut` prints a slice of a version string.
- `ver_test` compares two versions with one of six operators.
- `has` tests whether a word occurs in a list.

`ver_rs` and `ver_cut` share two pieces of logic:

- a tokenizer (`version_split`) that cuts a version into alternating
  separators and components;
- a small PEG grammar (`cmd::range`) for the ranges `N`, `N-` and `N-M`,
  plus the check in `parse::range` that refuses `N-M` with `M < N`.

`ver_rs`, `ver_cut` and `ver_test` each exist twice:

- the older entry points in `src/lib.rs`, which skip `argv[0]` and read
  `PV`/`PVR` from the environment;
- the newer ones in `src/bash/`, which take the argument array and a
  possibly null `PV`/`PVR` pointer.

`has` exists once, in `src/bash/has.rs`. It takes `argc` and `argv`, skips
`argv[0]`, and reads no variable.

The modules follow the source:

- `Wrappers`: `Option` and `Result`.
- `Decimal`: decimal numerals, with their value and rendering.
- `Builtin`: the error kinds, the last-error message text, and the return
  codes (0/-1, or 0/1/-1).
- `Range`: the range grammar, with PEG ordered choice and the requirement that
  the whole input is consumed; also the inverted-range check.
- `Tokenizer`: the regex
  `(?P<sep>[[:^alnum:]]+)?(?P<comp>[[:digit:]]+|[[:alpha:]]+)?` as a greedy
  ASCII scanner, and `captures_iter` as the recursive function `Captures`.
  `Tokenizer.VersionSplit` is the collecting loop of `version_split`, kept
  as a `while` loop and proved equal to `Split`.
- `VerRs`: the specification of a run of `(range, separator)` pairs.
  - `ParseEdits` parses every range.
  - `ApplyEdits` performs the overwrites, and the last write wins.
  - The in-place loops of the source are methods over an `array<string>`:
    `ReplaceSeparators` is the `for n in start..=end` loop, and `ApplyPairs`
    is the `while let` over the pairs. Both are proved against these
    functions.
- `VerCut`: the slice bounds and the cut, with the prefix, suffix, component
  and tiling laws.
- `VerTest`: the operator table and the order of error checks. The version
  parser and the version order come from the `pkgcraft` crate, so they are
  parameters here.
- `Has`: needle and haystack.
- `Examples`: concrete runs proved from the definitions.

Two behaviours of the code are easy to overlook:

1. `version_split("")` gives one empty pair `["", ""]`, not an empty list.
   The regex matches the empty string once at position 0, and
   `captures_iter` reports that match.
2. `pkgcraft_ver_test` with two arguments refuses an empty or null PVR
   (`$PVR is undefined`). The older `ver_test` in `src/lib.rs` refuses only
   a missing variable; an empty one is handed to the version parser.

## Model

| member | source | states |
|---|---|---|
| Decimal.Value | src/lib.rs:340-342 | a run of k digits denotes a number below 10^k |
| Decimal.Render | src/lib.rs:366-370 | a number is rendered as `{}` writes it into the error texts (here the inverted-range bounds; also the counts at src/bash/ver_rs.rs:33, src/bash/ver_cut.rs:36 and src/bash/ver_test.rs:44): a numeral without a leading zero, "0" for zero, which `parse::<usize>()` (src/lib.rs:341-342) reads back to the same number |
| Decimal.LeadingZeroIgnored | src/lib.rs:340-341 | a leading '0' leaves a numeral's value unchanged, so "01" reads as 1 |
| Builtin.OutputCode | src/bash/ver_rs.rs:52-63 | ver_rs and ver_cut return 0 exactly when they succeed and -1 exactly when they fail |
| Builtin.Fallback | src/bash/ver_rs.rs:26-29 | a non-null PV/PVR pointer gives its text; the result is "" exactly when the pointer is null or points to "" |
| Builtin.MessageReportsCount | src/bash/ver_rs.rs:32-36 | an argument-count error message ends, after a space, with a numeral whose value is the count the caller passed |
| Builtin.TestCode | src/bash/ver_test.rs:50-67 | ver_test and has return 0 for a true test, 1 for a false one and -1 for an error, with each implication in both directions |
| Range.Grammar | src/lib.rs:339-365 | every failure of the grammar is the invalid-range error carrying the whole range text |
| Range.Parse | src/lib.rs:363-373 | a parsed range always has start <= end; a failure is either text outside the grammar or an inverted N-M |
| Range.ParseBounded | src/lib.rs:340-343 | for "N-M": an error naming N and M when M < N, and (N, M) otherwise, for any max |
| Range.ParseOpen | src/lib.rs:344-348 | "N-" gives (N, max) when N <= max, and (N, N) when N > max |
| Range.ParsePoint | src/lib.rs:349-351 | "N" gives (N, N) for any max |
| Range.ParseRejectsOtherText | src/lib.rs:339-365 | any text that is not digits, digits-dash or digits-dash-digits fails with the invalid-range error carrying that text |
| Range.InvertedAlwaysFails | src/lib.rs:366-370 | "3-1" is refused as inverted for every max |
| Tokenizer.MatchAt | src/lib.rs:377 | one regex match from position p is a run of non-alphanumerics that stops only at the end or at a digit or letter, then a run of one class (digits or letters) that stops only at the end or at a character outside that class; it is non-empty unless p is at the end |
| Tokenizer.EmptyMatchOnlyAtEnd | src/lib.rs:377 | the regex matches the empty string only at the end of the input, so stopping the iteration there misses no match |
| Tokenizer.SplitShape | src/lib.rs:380-389 | the parts alternate separator and component, there is an even number of them, and joined back together they give the input exactly |
| Tokenizer.SplitEmpty | src/lib.rs:383-388 | the empty version splits into a single empty pair |
| Tokenizer.SplitNoEmptyPair | src/lib.rs:383-388 | for a non-empty version, no separator/component pair is empty on both sides |
| Tokenizer.SplitInnerComponents | src/lib.rs:377 | only the last component can be empty; every earlier one is a run of digits or letters |
| Tokenizer.SplitNeighboursDiffer | src/lib.rs:377 | two components with an empty separator between them are of different classes, so a run of digits or letters is never cut in two |
| Tokenizer.SplitUnique | src/lib.rs:380-389 | for a non-empty version, any list of alternating separators and components that joins back to it, has no empty pair or empty inner component, and never cuts a run in two, is exactly `Split` of it |
| Tokenizer.SplitTokens | src/lib.rs:380-389 | `Split` of a non-empty version has all of those properties and joins back to it |
| Tokenizer.JoinAppend | src/bash/ver_rs.rs:61 | joining a concatenation of token lists is joining each and concatenating |
| Tokenizer.VersionSplit | src/lib.rs:381-389 | the collecting loop returns exactly `Split(ver)`, which is well formed and joins back to `ver` |
| VerRs.EditsKeepLength | src/bash/ver_rs.rs:53-58 | replacing separators never changes the number of parts |
| VerRs.UncoveredUnchanged | src/bash/ver_rs.rs:53-58 | a part that no range covers keeps its text |
| VerRs.ComponentsUnchanged | src/bash/ver_rs.rs:54-56 | only even (separator) slots are ever written, so every component survives |
| VerRs.LastWriteWins | src/bash/ver_rs.rs:51-58 | when several ranges cover a separator, it ends up with the separator of the last pair that covers it |
| VerRs.FailurePersists | src/bash/ver_rs.rs:52 | once a range fails to parse, no later pair can change the result |
| VerRs.ParseEditsContents | src/bash/ver_rs.rs:50-52 | a successful parse yields one edit per pair; each edit has the bounds parse::range gives for that pair's range, start <= end, and that pair's separator |
| VerRs.ParseEditsEntry | src/bash/ver_rs.rs:50-52 | edit j is exactly what pair j parses to: the bounds of its range and its separator |
| VerRs.ParseEditsFirstFailure | src/bash/ver_rs.rs:51-52 | the error reported is the error of the first range that fails |
| VerRs.ParseEditsAllSucceed | src/bash/ver_rs.rs:50-52 | if every range parses, the whole run of pairs parses |
| VerRs.SlotOrigin | src/bash/ver_rs.rs:53-58 | after any edits, every slot holds its original token or the separator of one of the edits |
| VerRs.SubstituteSeparators | src/bash/ver_rs.rs:47-61 | a successful ver_rs prints the join of a token list as long as the version's, with every component kept and every slot either kept or holding one of the requested separators |
| VerRs.ReplaceSeparators | src/bash/ver_rs.rs:53-58 | the in-place loop writes the separator into every even slot from 2*start to 2*end that lies inside the array, and changes nothing else |
| VerRs.ApplyPairs | src/bash/ver_rs.rs:50-59 | the pair loop returns the first range error; otherwise the array holds all the edits, applied in order |
| VerRs.SubstituteInPlace | src/bash/ver_rs.rs:47-61 | the split, the in-place edits and the join together compute `Substitute`, with ranges bounded by half the number of parts |
| VerRs.VerRs | src/bash/ver_rs.rs:25-63 | fewer than 2 args is an argument-count error; an even count works on PV, where null is ""; an odd count takes the last argument as the version |
| VerRs.LibVerRs | src/lib.rs:398-446 | as VerRs after skipping argv[0], except that an even count with PV missing from the environment is an error |
| VerCut.Min | src/bash/ver_cut.rs:47-49 | the result is one of the two arguments and at most each of them |
| VerCut.SliceBounds | src/bash/ver_cut.rs:45-49 | the slice lies within the parts and is ordered for an ordered range; start 0 includes the leading separator, start n >= 1 begins at component n, and a bound past the last token is clamped to the end |
| VerCut.CutBetween | src/bash/ver_cut.rs:44-50 | "a-b" with 1 <= a <= b prints components a to b with the separators between them, stopping at the end of the version |
| VerCut.Cut | src/bash/ver_cut.rs:42-50 | a successful cut is a contiguous substring of the version; it fails exactly when the range does not parse, and with the same error |
| VerCut.CutAll | src/bash/ver_cut.rs:45-50 | "0-" prints the whole version |
| VerCut.CutComponent | src/bash/ver_cut.rs:45-50 | "n" prints component n alone, or nothing when the version has fewer components |
| VerCut.CutPrefix | src/bash/ver_cut.rs:45-50 | "0-k" prints the version up to the end of component k |
| VerCut.CutSuffix | src/bash/ver_cut.rs:45-50 | "k-" prints the version from component k to the end |
| VerCut.CutTiling | src/bash/ver_cut.rs:45-50 | the output of "0-k", then separator k, then the output of "k+1-" rebuild the version exactly |
| VerCut.VerCut | src/bash/ver_cut.rs:26-52 | 1 argument cuts PV, where null is ""; 2 arguments cut the second; any other count is an error, and only then is it an argument-count error; each output is a substring of its version |
| VerCut.LibVerCut | src/lib.rs:455-491 | as VerCut after skipping argv[0], except that 1 argument with PV missing from the environment is an error |
| VerTest.Holds | src/bash/ver_test.rs:53-65 | exactly the six operators -eq, -ne, -lt, -gt, -le, -ge have a meaning; any other text is refused |
| VerTest.Compare | src/bash/ver_test.rs:50-67 | the left version's parse error comes first, then the right one's, then an invalid operator; otherwise the operator's relation is applied to the two versions |
| VerTest.VerTest | src/bash/ver_test.rs:27-48 | 3 args are (lhs, op, rhs); 2 args test PVR, and an empty or null PVR is refused; any other count is an argument-count error |
| VerTest.LibVerTest | src/lib.rs:287-334 | argv[0] is skipped; with 2 args a missing PVR is an error, and an empty one is parsed like any other |
| VerTest.LibAgreesWithBuiltin | src/lib.rs:289-308 | for a non-empty PVR, the old and new entry points give the same result |
| VerTest.ComplementaryOperators | src/bash/ver_test.rs:53-67 | when both versions parse, -eq/-ne, -lt/-ge and -gt/-le return opposite codes (when either does not parse, both return -1) |
| VerTest.SwappedOperands | src/bash/ver_test.rs:54-59 | for two parsable versions and a total order, a -lt b equals b -gt a, a -le b equals b -ge a, and -eq is symmetric |
| VerTest.Reflexive | src/bash/ver_test.rs:54-59 | if the order is total, every parsable version is -eq, -le and -ge to itself and not -lt |
| Has.Has | src/bash/has.rs:17-31 | the only error is a missing needle; otherwise the result is true exactly when some later argument equals the needle |
| Has.NeedleAlone | src/bash/has.rs:29-30 | a needle with an empty haystack is not found |
| Has.HaystackOrderIrrelevant | src/bash/has.rs:29-30 | reordering the haystack does not change the answer |
| Examples.SplitThree | src/lib.rs:381-389 | "1.2.3" splits into "", "1", ".", "2", ".", "3" |
| Examples.SplitFour | src/lib.rs:381-389 | "1.2.3.4" splits into four pairs, the first of which has an empty separator |
| Examples.RsFirstSeparator | src/bash/ver_rs.rs:47-61 | ver_rs 1-1 _ 1.2.3 prints 1_2.3 |
| Examples.RsMiddleSeparators | src/bash/ver_rs.rs:47-61 | ver_rs 2-3 _ 1.2.3.4 prints 1.2_3_4 |
| Examples.CutMiddle | src/bash/ver_cut.rs:42-50 | ver_cut 2-3 1.2.3.4 prints 2.3 |
| Examples.OpenRanges | src/lib.rs:344-348 | "5-" with max 3 is (5, 5), and "2-" with max 5 is (2, 5) |

## Left out

- Machine integers are not modelled. Numbers are unbounded `nat`, but the source works in `usize`:
  - a numeral too large for `usize` panics at `unwrap()` in `cmd::range`;
  - `n * 2` could overflow;
  - a negative `args_len` or `argc` panics at `try_into().unwrap()` in `args_to_vec` (src/bash.rs:18, src/lib.rs:269);
  - a length larger than the real argument array is undefined behaviour in `from_raw_parts`, not a panic.
- C marshalling is not modelled. The pointer array, `CStr` conversion and the UTF-8 `unwrap()` panics are out of scope; arguments arrive as a `seq<string>`.
- The output is not printed. `println!` becomes the `string` in `Success`; the output's trailing newline is not modelled.
- The last-error slot is not modelled. `update_last_error` and `LAST_ERROR` become the `Error` in `Failure`, and `Builtin.Message` gives the text that would be stored.
- Builtin.Quoted: wraps a string in double quotes but omits the escaping that Rust's `{:?}` applies to quotes, backslashes and control characters.
- Peg error details are not modelled. `peg_error` also records the position and the expected tokens; `InvalidRange` keeps only the range text.
- Environment lookup is not modelled: `env::var` becomes an `Option<string>` parameter. "Missing" and "not unicode" both become `None`, and both are reported as `EnvNotFound`.
- Version parsing and the version order belong to the `pkgcraft` crate (`Version::from_str` and `Ord for Version`), which is not part of this model; `VerTest` takes them as parameters. VerTest.SwappedOperands and VerTest.Reflexive assume the comparison is a total order. `-eq` and `-ne` are modelled through `cmp == Equal`, while the source uses `PartialEq` (src/bash/ver_test.rs:54-55); the model assumes `==` agrees with `Ord`, as the contract of Rust's `Ord` requires, and the `VersionError` message is the parser's own text, taken as given.
- The `src/bash/` builtins call `pkgcraft::bash::version_split` and `pkgcraft::bash::parse`, which are not part of this model. They are modelled by the `src/lib.rs` versions shown in the same repository.
- Non-ASCII letters and digits are not modelled. `[[:alnum:]]` is ASCII-only in Rust's regex crate, so every non-ASCII character is separator text; the model does the same and gives no further treatment.
- Has.Has requires at least one argument, because `args_to_vec(...)[1..]` panics when argc is 0 (src/bash/has.rs:18).
- `src/bash/has.rs` is not declared in `src/bash.rs`, and it calls `args_to_vec` with its arguments in the other order. It is modelled by what its body evidently computes.
- The rest of the C API is outside this model: atoms, repositories, packages, configuration, EAPIs, restrictions and the free functions, together with the C tests that exercise them.
