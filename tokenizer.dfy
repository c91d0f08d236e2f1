/**
 `version_split`: the version string is scanned with the pattern
 `(?P<sep>[[:^alnum:]]+)?(?P<comp>[[:digit:]]+|[[:alpha:]]+)?` and every match
 contributes one separator slot and one component slot (either may be empty).
 The character classes are the ASCII ones, so any non-ASCII character belongs
 to a separator.
 */
module Tokenizer {
  import opened Wrappers
  import Decimal

  predicate IsAlpha(c: char) {
    'a' <= c <= 'z' || 'A' <= c <= 'Z'
  }

  predicate IsAlnum(c: char) {
    Decimal.IsDigit(c) || IsAlpha(c)
  }

  /** The three character classes of the pattern. */
  datatype Class = NonAlnum | Digit | Alpha

  predicate InClass(c: char, k: Class) {
    match k
    case NonAlnum => !IsAlnum(c)
    case Digit => Decimal.IsDigit(c)
    case Alpha => IsAlpha(c)
  }

  predicate AllIn(t: string, k: Class) {
    forall i :: 0 <= i < |t| ==> InClass(t[i], k)
  }

  /** What may sit in a separator slot: nothing, or non-alphanumeric characters only. */
  predicate IsSeparator(t: string) {
    AllIn(t, NonAlnum)
  }

  /** What may sit in a component slot: nothing, all digits, or all letters. */
  predicate IsComponent(t: string) {
    AllIn(t, Digit) || AllIn(t, Alpha)
  }

  /** End of the greedy run of class k starting at i. */
  function RunEnd(s: string, i: nat, k: Class): (j: nat)
    requires i <= |s|
    ensures i <= j <= |s|
    ensures AllIn(s[i..j], k)
    ensures j == |s| || !InClass(s[j], k)
    decreases |s| - i
  {
    if i < |s| && InClass(s[i], k) then
      var j := RunEnd(s, i + 1, k);
      assert s[i..j] == [s[i]] + s[i + 1..j];
      j
    else i
  }

  /** The class a character belongs to. */
  function ClassOf(c: char): (k: Class)
    ensures InClass(c, k)
    ensures k == NonAlnum <==> !IsAlnum(c)
  {
    if Decimal.IsDigit(c) then Digit else if IsAlpha(c) then Alpha else NonAlnum
  }

  /**
   End of the `comp` group when it is tried at j: the digit alternative is tried
   first, then the letter one; when neither matches the group is absent. A present
   group is the longest run of the class of its first character.
   */
  function ComponentEnd(s: string, j: nat): (e: nat)
    requires j <= |s|
    ensures j <= e <= |s|
    ensures IsComponent(s[j..e])
    ensures j < |s| && IsAlnum(s[j]) <==> j < e
    ensures j < e ==> AllIn(s[j..e], ClassOf(s[j]))
    ensures j < e ==> e == |s| || !InClass(s[e], ClassOf(s[j]))
  {
    if j < |s| && Decimal.IsDigit(s[j]) then RunEnd(s, j, Digit)
    else if j < |s| && IsAlpha(s[j]) then RunEnd(s, j, Alpha)
    else j
  }

  /**
   The match found when a search starts at p: it ends its separator at a and itself
   at b. Both groups are greedy: the separator stops only at an alphanumeric
   character or the end, and the component is the longest run of digits, or of
   letters, that starts there.
   */
  function MatchAt(s: string, p: nat): (m: (nat, nat))
    requires p <= |s|
    ensures p <= m.0 <= m.1 <= |s|
    ensures IsSeparator(s[p..m.0]) && IsComponent(s[m.0..m.1])
    ensures m.0 == |s| || IsAlnum(s[m.0])
    ensures m.0 < |s| ==> m.0 < m.1
    ensures m.0 < m.1 ==> AllIn(s[m.0..m.1], ClassOf(s[m.0]))
    ensures m.0 < m.1 ==> m.1 == |s| || !InClass(s[m.1], ClassOf(s[m.0]))
    ensures p < |s| ==> p < m.1
  {
    var a := RunEnd(s, p, NonAlnum);
    (a, ComponentEnd(s, a))
  }

  /** The pattern matches the empty text only at the end of the input. */
  lemma EmptyMatchOnlyAtEnd(s: string, p: nat)
    requires p <= |s|
    ensures MatchAt(s, p).1 == p <==> p == |s|
  {
  }

  /**
   The slots `captures_iter` produces when the search resumes at p and the last
   reported match ended at prev. As the regex crate does, an empty match that ends
   where the previous match ended is not reported; the crate then moves the search
   one character on, which here is past the end of s (`EmptyMatchOnlyAtEnd`), so the
   iteration stops.
   */
  function Captures(s: string, p: nat, prev: Option<nat>): seq<string>
    requires p <= |s|
    decreases |s| - p, if prev == Some(p) then 0 else 1
  {
    var (a, b) := MatchAt(s, p);
    if b == p && prev == Some(p) then []
    else [s[p..a], s[a..b]] + Captures(s, b, Some(b))
  }

  /** The token list of a version string: separators at even, components at odd indices. */
  function Split(s: string): seq<string> {
    Captures(s, 0, None)
  }

  /** `.join("")` of a token list. */
  function Join(parts: seq<string>): string {
    if parts == [] then "" else parts[0] + Join(parts[1..])
  }

  lemma {:induction false} JoinAppend(a: seq<string>, b: seq<string>)
    ensures Join(a + b) == Join(a) + Join(b)
  {
    if a != [] {
      assert (a + b)[0] == a[0];
      assert (a + b)[1..] == a[1..] + b;
      JoinAppend(a[1..], b);
      assert Join(a + b) == a[0] + (Join(a[1..]) + Join(b));
    } else {
      assert a + b == b;
    }
  }

  lemma JoinSingle(x: string)
    ensures Join([x]) == x
  {
    assert [x][1..] == [];
  }

  lemma JoinPair(x: string, y: string)
    ensures Join([x, y]) == x + y
  {
    assert [x, y][1..] == [y];
    assert Join([y]) == y + Join([]);
  }

  /** The token-list invariant: even length, and every slot belongs to its class. */
  ghost predicate WellFormed(parts: seq<string>) {
    && |parts| % 2 == 0
    && (forall i :: 0 <= i < |parts| && i % 2 == 0 ==> IsSeparator(parts[i]))
    && (forall i :: 0 <= i < |parts| && i % 2 == 1 ==> IsComponent(parts[i]))
  }

  lemma {:induction false} CapturesWellFormed(s: string, p: nat, prev: Option<nat>)
    requires p <= |s|
    ensures WellFormed(Captures(s, p, prev))
    decreases |s| - p, if prev == Some(p) then 0 else 1
  {
    var (a, b) := MatchAt(s, p);
    if !(b == p && prev == Some(p)) {
      var rest := Captures(s, b, Some(b));
      CapturesWellFormed(s, b, Some(b));
      var all := [s[p..a], s[a..b]] + rest;
      assert Captures(s, p, prev) == all;
      forall i | 0 <= i < |all|
        ensures i % 2 == 0 ==> IsSeparator(all[i])
        ensures i % 2 == 1 ==> IsComponent(all[i])
      {
        if i >= 2 { assert all[i] == rest[i - 2]; }
      }
    }
  }

  /** A suffix of a list is three consecutive slices of it put back together. */
  lemma Pieces<T>(s: seq<T>, p: nat, a: nat, b: nat)
    requires p <= a <= b <= |s|
    ensures s[p..] == s[p..a] + s[a..b] + s[b..]
  {
  }

  lemma {:induction false} CapturesJoin(s: string, p: nat, prev: Option<nat>)
    requires p <= |s|
    ensures Join(Captures(s, p, prev)) == s[p..]
    decreases |s| - p, if prev == Some(p) then 0 else 1
  {
    var (a, b) := MatchAt(s, p);
    if b == p && prev == Some(p) {
      EmptyMatchOnlyAtEnd(s, p);
    } else {
      var rest := Captures(s, b, Some(b));
      CapturesJoin(s, b, Some(b));
      JoinAppend([s[p..a], s[a..b]], rest);
      JoinPair(s[p..a], s[a..b]);
      Pieces(s, p, a, b);
    }
  }

  /**
   The tokenizer's promise: an even-length list whose even slots are separators and
   odd slots components, and whose concatenation is the input again.
   */
  lemma SplitShape(s: string)
    ensures WellFormed(Split(s))
    ensures Join(Split(s)) == s
  {
    CapturesWellFormed(s, 0, None);
    CapturesJoin(s, 0, None);
  }

  /** On the empty input the single empty match is reported: one empty separator and component. */
  lemma SplitEmpty()
    ensures Split("") == ["", ""]
  {
    assert Captures("", 0, Some(0)) == [];
  }

  /** Every (separator, component) pair holds at least one character. */
  ghost predicate NoEmptyPair(parts: seq<string>) {
    forall k :: 0 <= k < |parts| / 2 ==> parts[2 * k] + parts[2 * k + 1] != ""
  }

  /**
   A non-empty input has no empty pair: every match before the end is non-empty and
   the empty match at the end is suppressed.
   */
  lemma {:induction false} CapturesNoEmptyPair(s: string, p: nat)
    requires p <= |s|
    ensures NoEmptyPair(Captures(s, p, Some(p)))
    decreases |s| - p
  {
    var (a, b) := MatchAt(s, p);
    var c := Captures(s, p, Some(p));
    if p < |s| {
      var rest := Captures(s, b, Some(b));
      assert c == [s[p..a], s[a..b]] + rest;
      CapturesNoEmptyPair(s, b);
      forall k | 0 <= k < |c| / 2 ensures c[2 * k] + c[2 * k + 1] != "" {
        if k == 0 {
          assert |s[p..a] + s[a..b]| == b - p > 0;
        } else {
          CapturesWellFormed(s, b, Some(b));
          var j := k - 1;
          assert c[2 * k] == rest[2 * j] && c[2 * k + 1] == rest[2 * j + 1];
          assert rest[2 * j] + rest[2 * j + 1] != "";
        }
      }
    }
  }

  lemma SplitNoEmptyPair(s: string)
    requires s != ""
    ensures NoEmptyPair(Split(s))
  {
    var (a, b) := MatchAt(s, 0);
    assert Split(s) == [s[0..a], s[a..b]] + Captures(s, b, Some(b));
    var rest := Captures(s, b, Some(b));
    CapturesNoEmptyPair(s, b);
    CapturesWellFormed(s, b, Some(b));
    forall k | 0 <= k < |Split(s)| / 2 ensures Split(s)[2 * k] + Split(s)[2 * k + 1] != "" {
      if k > 0 {
        assert Split(s)[2 * k] == rest[2 * (k - 1)] && Split(s)[2 * k + 1] == rest[2 * (k - 1) + 1];
      }
    }
  }

  /** Only the last component slot can be empty: a separator run stops at a digit or a letter. */
  ghost predicate InnerComponentsNonEmpty(parts: seq<string>) {
    forall k :: 0 <= k < |parts| / 2 - 1 ==> parts[2 * k + 1] != ""
  }

  lemma {:induction false} CapturesInnerComponents(s: string, p: nat, prev: Option<nat>)
    requires p <= |s|
    ensures InnerComponentsNonEmpty(Captures(s, p, prev))
    decreases |s| - p, if prev == Some(p) then 0 else 1
  {
    var (a, b) := MatchAt(s, p);
    if !(b == p && prev == Some(p)) {
      var rest := Captures(s, b, Some(b));
      var c := [s[p..a], s[a..b]] + rest;
      assert Captures(s, p, prev) == c;
      CapturesInnerComponents(s, b, Some(b));
      if a == b {
        assert a == |s|;
        assert rest == [];
      } else {
        forall k | 0 <= k < |c| / 2 - 1 ensures c[2 * k + 1] != "" {
          if k > 0 {
            CapturesWellFormed(s, b, Some(b));
            var j := k - 1;
            assert c[2 * k + 1] == rest[2 * j + 1];
          }
        }
      }
    }
  }

  lemma SplitInnerComponents(s: string)
    ensures InnerComponentsNonEmpty(Split(s))
  {
    CapturesInnerComponents(s, 0, None);
  }

  /**
   Components are maximal runs: where the separator between two components is
   empty, one of them is a run of digits and the other a run of letters.
   */
  ghost predicate NeighboursDiffer(parts: seq<string>) {
    forall k :: 0 <= k && 2 * k + 3 < |parts| && parts[2 * k + 2] == "" &&
                parts[2 * k + 1] != "" && parts[2 * k + 3] != "" ==>
      ClassOf(parts[2 * k + 1][0]) != ClassOf(parts[2 * k + 3][0])
  }

  lemma {:induction false} CapturesNeighboursDiffer(s: string, p: nat, prev: Option<nat>)
    requires p <= |s|
    ensures NeighboursDiffer(Captures(s, p, prev))
    decreases |s| - p, if prev == Some(p) then 0 else 1
  {
    var (a, b) := MatchAt(s, p);
    if !(b == p && prev == Some(p)) {
      var rest := Captures(s, b, Some(b));
      var c := [s[p..a], s[a..b]] + rest;
      assert Captures(s, p, prev) == c;
      CapturesNeighboursDiffer(s, b, Some(b));
      forall k | 0 <= k && 2 * k + 3 < |c| && c[2 * k + 2] == "" && c[2 * k + 1] != "" && c[2 * k + 3] != ""
        ensures ClassOf(c[2 * k + 1][0]) != ClassOf(c[2 * k + 3][0])
      {
        if k == 0 {
          var (a2, b2) := MatchAt(s, b);
          assert rest != [];
          assert rest[0] == s[b..a2] && rest[1] == s[a2..b2];
          assert a2 == b && b < b2;
          assert c[1][0] == s[a] && c[3][0] == s[b];
          assert InClass(s[b], ClassOf(s[b]));
        } else {
          var j := k - 1;
          assert c[2 * k + 1] == rest[2 * j + 1] && c[2 * k + 2] == rest[2 * j + 2] && c[2 * k + 3] == rest[2 * j + 3];
        }
      }
    }
  }

  /** Split never cuts a run of digits or of letters in two. */
  lemma SplitNeighboursDiffer(s: string)
    ensures NeighboursDiffer(Split(s))
  {
    CapturesNeighboursDiffer(s, 0, None);
  }

  /** A run that stops where its class stops is the greedy run. */
  lemma {:induction false} RunEndUnique(s: string, i: nat, k: Class, j: nat)
    requires i <= j <= |s|
    requires AllIn(s[i..j], k)
    requires j == |s| || !InClass(s[j], k)
    ensures RunEnd(s, i, k) == j
    decreases j - i
  {
    if i < j {
      assert s[i] == s[i..j][0];
      assert s[i + 1..j] == s[i..j][1..];
      RunEndUnique(s, i + 1, k, j);
    }
  }

  /** Three pieces that make up a suffix of s sit at consecutive positions in it. */
  lemma ConcatSlices(s: string, p: nat, x: string, y: string, z: string)
    requires p <= |s| && x + y + z == s[p..]
    ensures p + |x| + |y| <= |s|
    ensures s[p..p + |x|] == x && s[p + |x|..p + |x| + |y|] == y && s[p + |x| + |y|..] == z
  {
    var t := x + y + z;
    assert t[..|x|] == x;
    assert t[|x|..|x| + |y|] == y;
    assert t[|x| + |y|..] == z;
  }

  /** All the properties that characterise a token list of the text it joins to. */
  ghost predicate Tokens(parts: seq<string>) {
    && WellFormed(parts)
    && NoEmptyPair(parts)
    && InnerComponentsNonEmpty(parts)
    && NeighboursDiffer(parts)
  }

  /** Dropping the first pair of a token list leaves a token list. */
  lemma TokensTail(parts: seq<string>)
    requires |parts| >= 2 && Tokens(parts)
    ensures Tokens(parts[2..])
  {
    var rest := parts[2..];
    forall i | 0 <= i < |rest| ensures rest[i] == parts[i + 2] { }
    forall i | 0 <= i < |rest| && i % 2 == 0 ensures IsSeparator(rest[i]) {
      assert rest[i] == parts[i + 2];
    }
    forall i | 0 <= i < |rest| && i % 2 == 1 ensures IsComponent(rest[i]) {
      assert rest[i] == parts[i + 2];
    }
    forall k | 0 <= k < |rest| / 2 ensures rest[2 * k] + rest[2 * k + 1] != "" {
      assert rest[2 * k] == parts[2 * (k + 1)] && rest[2 * k + 1] == parts[2 * (k + 1) + 1];
    }
    forall k | 0 <= k < |rest| / 2 - 1 ensures rest[2 * k + 1] != "" {
      assert rest[2 * k + 1] == parts[2 * (k + 1) + 1];
    }
    forall k | 0 <= k && 2 * k + 3 < |rest| && rest[2 * k + 2] == "" && rest[2 * k + 1] != "" && rest[2 * k + 3] != ""
      ensures ClassOf(rest[2 * k + 1][0]) != ClassOf(rest[2 * k + 3][0])
    {
      assert rest[2 * k + 1] == parts[2 * (k + 1) + 1] && rest[2 * k + 2] == parts[2 * (k + 1) + 2];
      assert rest[2 * k + 3] == parts[2 * (k + 1) + 3];
    }
  }

  /** A character of class Digit or Alpha belongs to no other class. */
  lemma ClassExact(c: char, k: Class)
    requires k != NonAlnum && InClass(c, k)
    ensures ClassOf(c) == k
  {
  }

  /** The facts a token list states about its first two pairs. */
  lemma TokensHead(parts: seq<string>)
    requires |parts| >= 2 && Tokens(parts)
    ensures IsSeparator(parts[0]) && IsComponent(parts[1]) && parts[0] + parts[1] != ""
    ensures |parts| >= 4 ==> parts[1] != "" && parts[2] + parts[3] != ""
    ensures |parts| >= 4 && parts[2] == "" && parts[1] != "" && parts[3] != "" ==>
              ClassOf(parts[1][0]) != ClassOf(parts[3][0])
  {
    assert parts[2 * 0] + parts[2 * 0 + 1] != "";
    if |parts| >= 4 {
      assert parts[2 * 1] + parts[2 * 1 + 1] != "";
      assert parts[2 * 0 + 1] != "";
    }
  }

  /**
   The text after a non-empty component starts outside its class: with a
   separator character, or with a component of the other class.
   */
  lemma AfterComponent(y: string, x2: string, y2: string, w: string)
    requires y != "" && IsComponent(y) && IsSeparator(x2) && IsComponent(y2) && x2 + y2 != ""
    requires x2 == "" ==> ClassOf(y[0]) != ClassOf(y2[0])
    ensures !InClass((x2 + y2 + w)[0], ClassOf(y[0]))
  {
    var c := (x2 + y2 + w)[0];
    if x2 != "" {
      assert c == x2[0];
    } else {
      assert c == y2[0];
    }
  }

  /** Join of a list that starts with a pair. */
  lemma JoinFirstPair(parts: seq<string>)
    requires |parts| >= 2
    ensures Join(parts) == parts[0] + parts[1] + Join(parts[2..])
  {
    assert parts == [parts[0], parts[1]] + parts[2..];
    JoinAppend([parts[0], parts[1]], parts[2..]);
    JoinPair(parts[0], parts[1]);
  }

  /**
   What a token list says about the text around its first component: the pair is
   not empty, an empty component ends the text, and the text after a component
   starts with a character outside that component's class.
   */
  lemma FirstPairBoundaries(parts: seq<string>)
    requires |parts| == 2 || |parts| >= 4
    requires IsSeparator(parts[0]) && IsComponent(parts[1]) && parts[0] + parts[1] != ""
    requires |parts| >= 4 ==> parts[1] != "" && parts[2] + parts[3] != ""
    requires |parts| >= 4 && parts[2] == "" && parts[1] != "" && parts[3] != "" ==>
               ClassOf(parts[1][0]) != ClassOf(parts[3][0])
    requires |parts| >= 4 ==> IsSeparator(parts[2]) && IsComponent(parts[3])
    ensures Join(parts) == parts[0] + parts[1] + Join(parts[2..])
    ensures parts[1] == "" ==> Join(parts[2..]) == ""
    ensures parts[1] != "" && Join(parts[2..]) != "" ==>
              !InClass(Join(parts[2..])[0], ClassOf(parts[1][0]))
  {
    JoinFirstPair(parts);
    if |parts| >= 4 {
      JoinFirstPair(parts[2..]);
      assert parts[2..][0] == parts[2] && parts[2..][1] == parts[3];
      if parts[1] != "" {
        AfterComponent(parts[1], parts[2], parts[3], Join(parts[4..]));
      }
      assert parts[2..][2..] == parts[4..];
    }
  }

  /**
   A separator, a component and the rest that make up s[p..], with those
   boundaries, are exactly the match the pattern finds at p.
   */
  lemma MatchOfPieces(s: string, p: nat, x: string, y: string, z: string)
    requires p <= |s| && x + y + z == s[p..]
    requires IsSeparator(x) && IsComponent(y)
    requires y == "" ==> z == ""
    requires y != "" && z != "" ==> !InClass(z[0], ClassOf(y[0]))
    ensures MatchAt(s, p) == (p + |x|, p + |x| + |y|)
    ensures s[p..p + |x|] == x && s[p + |x|..p + |x| + |y|] == y && s[p + |x| + |y|..] == z
  {
    ConcatSlices(s, p, x, y, z);
    var a, b := p + |x|, p + |x| + |y|;
    if y == "" {
      assert a == |s|;
    } else {
      assert s[a] == y[0];
    }
    RunEndUnique(s, p, NonAlnum, a);
    if y != "" {
      var k := ClassOf(y[0]);
      assert AllIn(y, k);
      if b < |s| {
        assert s[b] == z[0];
      }
      RunEndUnique(s, a, k, b);
    }
  }

  /** A list of at least two elements is its first pair followed by the rest. */
  lemma PairThenRest<T>(l: seq<T>)
    requires |l| >= 2
    ensures l == [l[0], l[1]] + l[2..]
  {
  }

  /** Before the end, `captures_iter` reports the match at p and goes on after it. */
  lemma CapturesFirst(s: string, p: nat, prev: Option<nat>, x: string, y: string)
    requires p < |s| && MatchAt(s, p) == (p + |x|, p + |x| + |y|)
    requires s[p..p + |x|] == x && s[p + |x|..p + |x| + |y|] == y
    ensures Captures(s, p, prev) == [x, y] + Captures(s, p + |x| + |y|, Some(p + |x| + |y|))
  {
  }

  /** The same characterisation, one pair at a time. */
  ghost predicate TokenPairs(parts: seq<string>)
    decreases |parts|
  {
    || parts == []
    || (&& |parts| >= 2
        && IsSeparator(parts[0]) && IsComponent(parts[1]) && parts[0] + parts[1] != ""
        && (|parts| >= 4 ==> parts[1] != "" && IsSeparator(parts[2]) && IsComponent(parts[3]))
        && (|parts| >= 4 && parts[2] == "" && parts[1] != "" && parts[3] != "" ==>
              ClassOf(parts[1][0]) != ClassOf(parts[3][0]))
        && TokenPairs(parts[2..]))
  }

  lemma {:induction false} TokensArePairs(parts: seq<string>)
    requires Tokens(parts)
    ensures TokenPairs(parts)
    decreases |parts|
  {
    if parts != [] {
      assert |parts| >= 2;
      TokensHead(parts);
      assert |parts| >= 4 ==> IsSeparator(parts[2]) && IsComponent(parts[3]);
      TokensTail(parts);
      TokensArePairs(parts[2..]);
    }
  }

  /**
   The first pair of a token list of s[p..] is the match the pattern finds at p,
   and the rest of the list joins to the text after it.
   */
  lemma FirstPairIsMatch(s: string, p: nat, parts: seq<string>)
    requires p <= |s| && parts != [] && TokenPairs(parts) && Join(parts) == s[p..]
    ensures p < |s| && p + |parts[0]| + |parts[1]| <= |s|
    ensures MatchAt(s, p) == (p + |parts[0]|, p + |parts[0]| + |parts[1]|)
    ensures s[p..p + |parts[0]|] == parts[0]
    ensures s[p + |parts[0]|..p + |parts[0]| + |parts[1]|] == parts[1]
    ensures Join(parts[2..]) == s[p + |parts[0]| + |parts[1]|..]
  {
    assert parts[2..] == [] || |parts[2..]| >= 2;
    FirstPairBoundaries(parts);
    MatchOfPieces(s, p, parts[0], parts[1], Join(parts[2..]));
  }

  /** A token list of s[p..] is what `captures_iter` reports from p on. */
  lemma {:induction false} CapturesUnique(s: string, p: nat, parts: seq<string>)
    requires p <= |s| && TokenPairs(parts) && Join(parts) == s[p..]
    ensures parts == Captures(s, p, Some(p))
    decreases |parts|
  {
    if parts == [] {
      assert p == |s|;
    } else {
      FirstPairIsMatch(s, p, parts);
      var x, y, rest := parts[0], parts[1], parts[2..];
      CapturesUnique(s, p + |x| + |y|, rest);
      CapturesFirst(s, p, Some(p), x, y);
      PairThenRest(parts);
    }
  }

  /**
   Split is the only token list of a non-empty version: any even list of
   separators and components that joins to s, has no empty pair, no empty inner
   component and no run cut in two, is Split(s).
   */
  lemma SplitUnique(s: string, parts: seq<string>)
    requires s != "" && Tokens(parts) && Join(parts) == s
    ensures parts == Split(s)
  {
    assert s[0..] == s;
    TokensArePairs(parts);
    CapturesUnique(s, 0, parts);
    var (a, b) := MatchAt(s, 0);
    assert Captures(s, 0, None) == Captures(s, 0, Some(0));
  }

  /** Split of a non-empty version has all the characterising properties. */
  lemma SplitTokens(s: string)
    requires s != ""
    ensures Tokens(Split(s)) && Join(Split(s)) == s
  {
    SplitShape(s);
    SplitNoEmptyPair(s);
    SplitInnerComponents(s);
    SplitNeighboursDiffer(s);
  }

  /** `version_split`: the captures loop, extending the list by one pair per reported match. */
  method VersionSplit(ver: string) returns (parts: seq<string>)
    ensures parts == Split(ver)
    ensures WellFormed(parts) && Join(parts) == ver
  {
    parts := [];
    var pos: nat := 0;
    var prev: Option<nat> := None;
    while pos <= |ver|
      invariant pos <= |ver| + 1
      invariant pos <= |ver| ==> parts + Captures(ver, pos, prev) == Split(ver)
      invariant pos > |ver| ==> parts == Split(ver)
      decreases |ver| + 1 - pos, if prev == Some(pos) then 0 else 1
    {
      var (a, b) := MatchAt(ver, pos);
      if b == pos && prev == Some(pos) {
        pos := pos + 1;
      } else {
        parts := parts + [ver[pos..a], ver[a..b]];
        prev := Some(b);
        pos := b;
      }
    }
    SplitShape(ver);
  }
}
