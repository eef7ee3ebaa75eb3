/**
 * Debian version ordering, as defined by deb-version(5) and section 5.6.12
 * ("Version") of the Debian Policy Manual, in the form src/version_cmp.ts
 * implements it.
 *
 * The comparison results of the source are JavaScript numbers; only their sign
 * and the special value NaN matter to callers, and NaN is reachable (see
 * PartCmp below), so a comparison yields a `Cmp`.
 */
module VersionCmp {
  import opened Wrappers

  /** A JavaScript number produced by a comparison: an integer or NaN. */
  datatype Cmp = Num(n: int) | NaN

  function Neg(c: Cmp): Cmp {
    match c
    case Num(n) => Num(-n)
    case NaN => NaN
  }

  predicate IsDigit(c: char) { '0' <= c <= '9' }

  predicate IsLetter(c: char) { 'A' <= c <= 'Z' || 'a' <= c <= 'z' }

  function Concat(parts: seq<string>): string {
    if parts == [] then [] else parts[0] + Concat(parts[1..])
  }

  // ---------------------------------------------------------------------------
  // splitCharTypes: alternating digit / non-digit runs, digit run first
  // ---------------------------------------------------------------------------

  /** Length of the longest prefix of `s` made only of digits (`digit`) or only of non-digits. */
  function SpanLength(s: string, digit: bool): (n: nat)
    ensures n <= |s|
    ensures n < |s| ==> IsDigit(s[n]) != digit
  {
    if s == [] || IsDigit(s[0]) != digit then 0 else 1 + SpanLength(s[1..], digit)
  }

  /** The span is homogeneous (its maximality is SpanLength's own postcondition). */
  lemma {:induction false} SpanLengthIsMaximal(s: string, digit: bool)
    ensures forall k :: 0 <= k < SpanLength(s, digit) ==> IsDigit(s[k]) == digit
  {
    if s != [] && IsDigit(s[0]) == digit {
      SpanLengthIsMaximal(s[1..], digit);
      forall k | 0 < k < SpanLength(s, digit) ensures IsDigit(s[k]) == digit {
        assert s[k] == s[1..][k - 1];
      }
    }
  }

  predicate Homogeneous(run: string, digit: bool) {
    forall j :: 0 <= j < |run| ==> IsDigit(run[j]) == digit
  }

  /** The runs of `s`, the first of which has kind `digit`. */
  function RunsFrom(s: string, digit: bool): seq<string>
    requires digit || s == [] || !IsDigit(s[0])
    decreases 2 * |s| + (if digit then 1 else 0)
  {
    if s == [] then []
    else
      var n := SpanLength(s, digit);
      assert !digit ==> n > 0;
      [s[..n]] + RunsFrom(s[n..], !digit)
  }

  /** The runs put back together give the string. */
  lemma {:induction false} RunsFromConcat(s: string, digit: bool)
    requires digit || s == [] || !IsDigit(s[0])
    ensures Concat(RunsFrom(s, digit)) == s
    decreases 2 * |s| + (if digit then 1 else 0)
  {
    if s != [] {
      var n := SpanLength(s, digit);
      RunsFromConcat(s[n..], !digit);
      var runs := [s[..n]] + RunsFrom(s[n..], !digit);
      assert runs[1..] == RunsFrom(s[n..], !digit);
      assert s == s[..n] + s[n..];
    }
  }

  /** The runs alternate between digit and non-digit runs. */
  lemma {:induction false} RunsFromKinds(s: string, digit: bool)
    requires digit || s == [] || !IsDigit(s[0])
    ensures forall k :: 0 <= k < |RunsFrom(s, digit)| ==> Homogeneous(RunsFrom(s, digit)[k], digit == (k % 2 == 0))
    decreases 2 * |s| + (if digit then 1 else 0)
  {
    if s != [] {
      var n := SpanLength(s, digit);
      SpanLengthIsMaximal(s, digit);
      var rest := RunsFrom(s[n..], !digit);
      RunsFromKinds(s[n..], !digit);
      var runs := [s[..n]] + rest;
      forall k | 0 <= k < |runs|
        ensures Homogeneous(runs[k], digit == (k % 2 == 0))
      {
        if k > 0 {
          assert runs[k] == rest[k - 1];
        }
      }
    }
  }

  /** Only the first run may be empty, and only when it is a digit run. */
  lemma {:induction false} RunsFromNonEmpty(s: string, digit: bool)
    requires digit || s == [] || !IsDigit(s[0])
    ensures forall k :: 0 <= k < |RunsFrom(s, digit)| && (k > 0 || !digit) ==> RunsFrom(s, digit)[k] != []
    decreases 2 * |s| + (if digit then 1 else 0)
  {
    if s != [] {
      var n := SpanLength(s, digit);
      var rest := RunsFrom(s[n..], !digit);
      RunsFromNonEmpty(s[n..], !digit);
      var runs := [s[..n]] + rest;
      forall k | 0 < k < |runs|
        ensures runs[k] != []
      {
        assert runs[k] == rest[k - 1];
      }
    }
  }

  /** The digit-first runs of a string (what splitCharTypes yields). */
  lemma RunsShape(s: string)
    ensures Concat(Runs(s)) == s
    ensures forall k :: 0 <= k < |Runs(s)| ==> Homogeneous(Runs(s)[k], k % 2 == 0)
    ensures forall k :: 0 < k < |Runs(s)| ==> Runs(s)[k] != []
  {
    RunsFromConcat(s, true);
    RunsFromKinds(s, true);
    RunsFromNonEmpty(s, true);
  }

  /** What splitCharTypes yields for `s`. */
  function Runs(s: string): seq<string> {
    RunsFrom(s, true)
  }

  /** The generator splitCharTypes, with its yields collected in order. */
  method SplitCharTypes(s0: string) returns (runs: seq<string>)
    ensures runs == Runs(s0)
  {
    runs := [];
    var s := s0;
    var digit := true;
    while |s| > 0
      invariant digit || s == [] || !IsDigit(s[0])
      invariant runs + RunsFrom(s, digit) == Runs(s0)
      decreases 2 * |s| + (if digit then 1 else 0)
    {
      var i := 0;
      while i < |s| && digit == IsDigit(s[i])
        invariant 0 <= i <= |s|
        invariant forall k :: 0 <= k < i ==> IsDigit(s[k]) == digit
      {
        i := i + 1;
      }
      SpanLengthIsMaximal(s, digit);
      assert i == SpanLength(s, digit);
      assert RunsFrom(s, digit) == [s[..i]] + RunsFrom(s[i..], !digit);
      assert runs + RunsFrom(s, digit) == (runs + [s[..i]]) + RunsFrom(s[i..], !digit);
      runs := runs + [s[..i]];
      s := s[i..];
      digit := !digit;
    }
  }

  // ---------------------------------------------------------------------------
  // Numeric value of a digit run (the unary `+` of the source)
  // ---------------------------------------------------------------------------

  function DigitValue(c: char): nat {
    if IsDigit(c) then (c as int) - ('0' as int) else 0
  }

  /** Decimal value of a run of digits; the empty run is 0. */
  function DecimalValue(s: string): nat {
    if s == [] then 0 else 10 * DecimalValue(s[..|s| - 1]) + DigitValue(s[|s| - 1])
  }

  /** Leading zeros do not change the value of a digit run. */
  lemma {:induction false} LeadingZeroIgnored(s: string)
    ensures DecimalValue("0" + s) == DecimalValue(s)
  {
    if s != [] {
      assert ("0" + s)[..|"0" + s| - 1] == "0" + s[..|s| - 1];
      LeadingZeroIgnored(s[..|s| - 1]);
    }
  }

  // ---------------------------------------------------------------------------
  // vstrcmp: the modified lexical comparison of non-digit runs
  // ---------------------------------------------------------------------------

  /** Comparison of two different characters at the same position. */
  function CharCmp(x: char, y: char): int {
    if x == '~' then -1
    else if y == '~' then 1
    else if IsLetter(x) then (if IsLetter(y) then x as int - y as int else -1)
    else if IsLetter(y) then 1
    else x as int - y as int
  }

  /** The value vstrcmp returns. */
  function VStrCmp(a: string, b: string): int {
    if |a| == 0 then (if |b| == 0 then 0 else if b[0] == '~' then 1 else -1)
    else if |b| == 0 then (if a[0] == '~' then -1 else 1)
    else if a[0] == b[0] then VStrCmp(a[1..], b[1..])
    else CharCmp(a[0], b[0])
  }

  /** vstrcmp, walking both strings with one index. */
  method Vstrcmp(a: string, b: string) returns (r: int)
    ensures r == VStrCmp(a, b)
  {
    var i := 0;
    while true
      invariant 0 <= i <= |a| && i <= |b|
      invariant VStrCmp(a[i..], b[i..]) == VStrCmp(a, b)
      decreases |a| - i
    {
      if i >= |a| {
        r := if i >= |b| then 0 else if b[i] == '~' then 1 else -1;
        return;
      }
      if i >= |b| {
        r := if a[i] == '~' then -1 else 1;
        return;
      }
      var ai, bi := a[i], b[i];
      if ai == bi {
        assert a[i..][1..] == a[i + 1..] && b[i..][1..] == b[i + 1..];
        i := i + 1;
        continue;
      }
      if ai == '~' {
        return -1;
      }
      if bi == '~' {
        return 1;
      }
      if IsLetter(ai) {
        r := if IsLetter(bi) then ai as int - bi as int else -1;
        return;
      }
      if IsLetter(bi) {
        return 1;
      }
      r := ai as int - bi as int;
      return;
    }
  }

  /**
   * The weight under which vstrcmp is a plain lexicographic order: tilde
   * below the end of the string (weight 0), letters below every other
   * character, code points otherwise.
   */
  function Rank(c: char): int {
    if c == '~' then -1 else if IsLetter(c) then c as int else c as int + 0x11_0000
  }

  /** Weight of the first position of `s`; the end of the string weighs 0. */
  function HeadRank(s: string): int {
    if s == [] then 0 else Rank(s[0])
  }

  /** vstrcmp is decided by the weights of the first characters, or continues on equal ones. */
  lemma {:induction false} VStrCmpIsRankOrder(a: string, b: string)
    ensures HeadRank(a) < HeadRank(b) ==> VStrCmp(a, b) < 0
    ensures HeadRank(a) > HeadRank(b) ==> VStrCmp(a, b) > 0
    ensures HeadRank(a) == HeadRank(b) ==>
      (a == [] && b == []) || (a != [] && b != [] && a[0] == b[0] && VStrCmp(a, b) == VStrCmp(a[1..], b[1..]))
  {
  }

  /** Swapping the arguments of vstrcmp negates its result. */
  lemma {:induction false} VStrCmpSwap(a: string, b: string)
    ensures VStrCmp(b, a) == -VStrCmp(a, b)
  {
    if a != [] && b != [] && a[0] == b[0] {
      VStrCmpSwap(a[1..], b[1..]);
    }
  }

  /** vstrcmp returns 0 exactly for equal strings. */
  lemma {:induction false} VStrCmpZeroIffEqual(a: string, b: string)
    ensures VStrCmp(a, b) == 0 <==> a == b
  {
    if a != [] && b != [] && a[0] == b[0] {
      VStrCmpZeroIffEqual(a[1..], b[1..]);
      assert a == [a[0]] + a[1..] && b == [b[0]] + b[1..];
    }
  }

  /** vstrcmp is transitive. */
  lemma {:induction false} VStrCmpTransitive(a: string, b: string, c: string)
    requires VStrCmp(a, b) < 0 && VStrCmp(b, c) < 0
    ensures VStrCmp(a, c) < 0
  {
    VStrCmpIsRankOrder(a, b);
    VStrCmpIsRankOrder(b, c);
    VStrCmpIsRankOrder(a, c);
    if HeadRank(a) == HeadRank(c) {
      VStrCmpTransitive(a[1..], b[1..], c[1..]);
    }
  }

  /** The ordering the source's test suite sorts into: ~~ < ~~a < ~ < (empty) < a < #. */
  lemma VStrCmpExamples()
    ensures VStrCmp("~~", "~~a") < 0 && VStrCmp("~~a", "~") < 0 && VStrCmp("~", "") < 0
    ensures VStrCmp("", "a") < 0 && VStrCmp("a", "#") < 0
  {
  }

  // ---------------------------------------------------------------------------
  // cmpVersionPart: run-by-run comparison, as written and as intended
  // ---------------------------------------------------------------------------

  function Max(x: int, y: int): int { if x < y then y else x }

  /** The run at index i, or the empty string once the runs are exhausted (`ai || ''`). */
  function RunOrEmpty(runs: seq<string>, i: nat): string {
    if i < |runs| then runs[i] else ""
  }

  /**
   * The comparison of the i-th runs as the source computes it: odd runs by
   * vstrcmp, even runs numerically, where a missing run is `+undefined`, NaN.
   */
  function RunCmp(ra: seq<string>, rb: seq<string>, i: nat): Cmp {
    if i % 2 == 1 then Num(VStrCmp(RunOrEmpty(ra, i), RunOrEmpty(rb, i)))
    else if i < |ra| && i < |rb| then Num(DecimalValue(ra[i]) - DecimalValue(rb[i]))
    else NaN
  }

  function PartCmpFrom(ra: seq<string>, rb: seq<string>, i: nat): Cmp
    decreases Max(|ra|, |rb|) - i
  {
    if i >= |ra| && i >= |rb| then Num(0)
    else
      var c := RunCmp(ra, rb, i);
      if c != Num(0) then c else PartCmpFrom(ra, rb, i + 1)
  }

  /** What cmpVersionPart returns. */
  function PartCmp(a: string, b: string): Cmp {
    PartCmpFrom(Runs(a), Runs(b), 0)
  }

  /** cmpVersionPart, stepping the two run sequences in lockstep. */
  method CmpVersionPart(a: string, b: string) returns (c: Cmp)
    ensures c == PartCmp(a, b)
  {
    var aparts := SplitCharTypes(a);
    var bparts := SplitCharTypes(b);
    var i := 0;
    while true
      invariant PartCmpFrom(aparts, bparts, i) == PartCmp(a, b)
      decreases Max(|aparts|, |bparts|) - i
    {
      var ai: Option<string> := if i < |aparts| then Some(aparts[i]) else None;
      var bi: Option<string> := if i < |bparts| then Some(bparts[i]) else None;
      if ai.None? && bi.None? {
        return Num(0);
      }
      if i % 2 == 1 {
        var v := Vstrcmp(if ai.Some? then ai.value else "", if bi.Some? then bi.value else "");
        c := Num(v);
      } else if ai.Some? && bi.Some? {
        c := Num(DecimalValue(ai.value) - DecimalValue(bi.value));
      } else {
        c := NaN;
      }
      if c != Num(0) {
        return;
      }
      i := i + 1;
    }
  }

  /** The intended comparison of the i-th runs: a missing digit run counts as zero. */
  function FixedRunCmp(ra: seq<string>, rb: seq<string>, i: nat): int {
    if i % 2 == 1 then VStrCmp(RunOrEmpty(ra, i), RunOrEmpty(rb, i))
    else DecimalValue(RunOrEmpty(ra, i)) - DecimalValue(RunOrEmpty(rb, i))
  }

  function PartCmpFixedFrom(ra: seq<string>, rb: seq<string>, i: nat): int
    decreases Max(|ra|, |rb|) - i
  {
    if i >= |ra| && i >= |rb| then 0
    else
      var c := FixedRunCmp(ra, rb, i);
      if c != 0 then c else PartCmpFixedFrom(ra, rb, i + 1)
  }

  /** cmpVersionPart as its comment describes it: an empty run counts as zero. */
  function PartCmpFixed(a: string, b: string): int {
    PartCmpFixedFrom(Runs(a), Runs(b), 0)
  }

  /** A part compares equal to itself. */
  lemma {:induction false} PartCmpFromReflexive(r: seq<string>, i: nat)
    ensures PartCmpFrom(r, r, i) == Num(0)
    decreases |r| - i
  {
    if i < |r| {
      VStrCmpZeroIffEqual(RunOrEmpty(r, i), RunOrEmpty(r, i));
      PartCmpFromReflexive(r, i + 1);
    }
  }

  /** Swapping the parts negates the result, NaN included. */
  lemma {:induction false} PartCmpFromSwap(ra: seq<string>, rb: seq<string>, i: nat)
    ensures PartCmpFrom(rb, ra, i) == Neg(PartCmpFrom(ra, rb, i))
    decreases Max(|ra|, |rb|) - i
  {
    if !(i >= |ra| && i >= |rb|) {
      PartCmpFromSwap(ra, rb, i + 1);
      RunCmpSwap(ra, rb, i);
    }
  }

  lemma RunCmpSwap(ra: seq<string>, rb: seq<string>, i: nat)
    ensures RunCmp(rb, ra, i) == Neg(RunCmp(ra, rb, i))
  {
    VStrCmpSwap(RunOrEmpty(ra, i), RunOrEmpty(rb, i));
  }

  lemma PartCmpSwap(a: string, b: string)
    ensures PartCmp(b, a) == Neg(PartCmp(a, b))
  {
    PartCmpFromSwap(Runs(a), Runs(b), 0);
  }

  /**
   * NaN only arises when one part has more runs than the other and the
   * shorter one stops before a digit run.
   */
  lemma {:induction false} PartCmpFromNaN(ra: seq<string>, rb: seq<string>, i: nat)
    requires i <= |ra| && i <= |rb|
    requires forall k :: 0 < k < |ra| ==> ra[k] != []
    requires forall k :: 0 < k < |rb| ==> rb[k] != []
    requires PartCmpFrom(ra, rb, i) == NaN
    ensures |ra| != |rb|
    ensures if |ra| < |rb| then |ra| % 2 == 0 else |rb| % 2 == 0
    decreases Max(|ra|, |rb|) - i
  {
    if i < |ra| && i < |rb| && RunCmp(ra, rb, i) == Num(0) {
      PartCmpFromNaN(ra, rb, i + 1);
    }
  }

  /** Whenever the source's result is a number, it is the intended one. */
  lemma {:induction false} PartCmpFromAgreesWithFixed(ra: seq<string>, rb: seq<string>, i: nat)
    requires PartCmpFrom(ra, rb, i) != NaN
    ensures PartCmpFrom(ra, rb, i) == Num(PartCmpFixedFrom(ra, rb, i))
    decreases Max(|ra|, |rb|) - i
  {
    if !(i >= |ra| && i >= |rb|) && RunCmp(ra, rb, i) == Num(0) {
      PartCmpFromAgreesWithFixed(ra, rb, i + 1);
    }
  }

  /**
   * cmpVersionPart yields NaN only for parts with different numbers of runs,
   * the shorter ending with a non-digit run; otherwise it yields the intended
   * number.
   */
  lemma PartCmpNaNNeedsRunCountMismatch(a: string, b: string)
    ensures PartCmp(a, b) == NaN ==>
      |Runs(a)| != |Runs(b)| && (if |Runs(a)| < |Runs(b)| then |Runs(a)| else |Runs(b)|) % 2 == 0
    ensures PartCmp(a, b) != NaN ==> PartCmp(a, b) == Num(PartCmpFixed(a, b))
  {
    if PartCmp(a, b) == NaN {
      RunsShape(a);
      RunsShape(b);
      PartCmpFromNaN(Runs(a), Runs(b), 0);
    } else {
      PartCmpFromAgreesWithFixed(Runs(a), Runs(b), 0);
    }
  }

  /** The runs of a few short strings, worked out. */
  lemma RunsExamples()
    ensures Runs("") == []
    ensures Runs("1") == ["1"]
    ensures Runs("1a") == ["1", "a"]
    ensures Runs("1a1") == ["1", "a", "1"]
  {
    assert SpanLength("1", true) == 1 by { assert "1"[1..] == ""; }
    assert "1"[..1] == "1" && "1"[1..] == "";
    assert SpanLength("a", false) == 1 by { assert "a"[1..] == ""; }
    assert "a"[..1] == "a" && "a"[1..] == "";
    assert RunsFrom("a", false) == ["a"];
    assert SpanLength("1a", true) == 1 by { assert "1a"[1..] == "a"; }
    assert "1a"[..1] == "1" && "1a"[1..] == "a";
    assert SpanLength("a1", false) == 1 by { assert "a1"[1..] == "1"; }
    assert "a1"[..1] == "a" && "a1"[1..] == "1";
    assert RunsFrom("1", true) == ["1"];
    assert RunsFrom("a1", false) == ["a", "1"];
    assert SpanLength("1a1", true) == 1 by { assert "1a1"[1..] == "a1"; }
    assert "1a1"[..1] == "1" && "1a1"[1..] == "a1";
  }

  /** `1a` against `1a1`, and the empty part against `1`: NaN, where a negative number is meant. */
  lemma PartCmpNaNExamples()
    ensures PartCmp("1a", "1a1") == NaN && PartCmpFixed("1a", "1a1") == -1
    ensures PartCmp("", "1") == NaN && PartCmpFixed("", "1") == -1
  {
    RunsExamples();
    assert DecimalValue("1") == 1 by { assert "1"[..0] == ""; }
    assert RunCmp(["1", "a"], ["1", "a", "1"], 1) == Num(0);
    assert FixedRunCmp(["1", "a"], ["1", "a", "1"], 1) == 0;
  }

  /**
   * Three comparison results consistent with a total preorder: comparing
   * x with z agrees with what comparing x with y and y with z implies.
   */
  predicate Consistent(xy: int, yz: int, xz: int) {
    && (xy <= 0 && yz <= 0 ==> xz <= 0)
    && (xy >= 0 && yz >= 0 ==> xz >= 0)
    && ((xy < 0 && yz <= 0) || (xy <= 0 && yz < 0) ==> xz < 0)
    && ((xy > 0 && yz >= 0) || (xy >= 0 && yz > 0) ==> xz > 0)
  }

  /** "first difference decides": lexicographic combination keeps consistency. */
  function Lex(first: int, rest: int): int { if first != 0 then first else rest }

  lemma LexConsistent(x1: int, x2: int, x3: int, y1: int, y2: int, y3: int)
    requires Consistent(x1, x2, x3) && Consistent(y1, y2, y3)
    ensures Consistent(Lex(x1, y1), Lex(x2, y2), Lex(x3, y3))
  {
  }

  lemma {:induction false} VStrCmpConsistent(a: string, b: string, c: string)
    ensures Consistent(VStrCmp(a, b), VStrCmp(b, c), VStrCmp(a, c))
  {
    VStrCmpZeroIffEqual(a, b);
    VStrCmpZeroIffEqual(b, c);
    VStrCmpZeroIffEqual(a, c);
    if VStrCmp(a, b) < 0 && VStrCmp(b, c) < 0 {
      VStrCmpTransitive(a, b, c);
    }
    if VStrCmp(a, b) > 0 && VStrCmp(b, c) > 0 {
      VStrCmpSwap(a, b);
      VStrCmpSwap(b, c);
      VStrCmpSwap(a, c);
      VStrCmpTransitive(c, b, a);
    }
  }

  lemma PartCmpFixedFromUnfold(ra: seq<string>, rb: seq<string>, i: nat)
    ensures PartCmpFixedFrom(ra, rb, i) == Lex(FixedRunCmp(ra, rb, i), PartCmpFixedFrom(ra, rb, i + 1))
  {
    if i >= |ra| && i >= |rb| {
      assert RunOrEmpty(ra, i) == "" && RunOrEmpty(rb, i) == "";
    }
  }

  /** The intended part comparison is a total preorder. */
  lemma {:induction false} PartCmpFixedFromConsistent(ra: seq<string>, rb: seq<string>, rc: seq<string>, i: nat)
    ensures Consistent(PartCmpFixedFrom(ra, rb, i), PartCmpFixedFrom(rb, rc, i), PartCmpFixedFrom(ra, rc, i))
    decreases Max(Max(|ra|, |rb|), |rc|) - i
  {
    if i < Max(Max(|ra|, |rb|), |rc|) {
      PartCmpFixedFromUnfold(ra, rb, i);
      PartCmpFixedFromUnfold(rb, rc, i);
      PartCmpFixedFromUnfold(ra, rc, i);
      if i % 2 == 1 {
        VStrCmpConsistent(RunOrEmpty(ra, i), RunOrEmpty(rb, i), RunOrEmpty(rc, i));
      }
      PartCmpFixedFromConsistent(ra, rb, rc, i + 1);
      LexConsistent(FixedRunCmp(ra, rb, i), FixedRunCmp(rb, rc, i), FixedRunCmp(ra, rc, i),
                    PartCmpFixedFrom(ra, rb, i + 1), PartCmpFixedFrom(rb, rc, i + 1), PartCmpFixedFrom(ra, rc, i + 1));
    }
  }

  lemma {:induction false} PartCmpFixedFromSwap(ra: seq<string>, rb: seq<string>, i: nat)
    ensures PartCmpFixedFrom(rb, ra, i) == -PartCmpFixedFrom(ra, rb, i)
    decreases Max(|ra|, |rb|) - i
  {
    if !(i >= |ra| && i >= |rb|) {
      VStrCmpSwap(RunOrEmpty(ra, i), RunOrEmpty(rb, i));
      PartCmpFixedFromSwap(ra, rb, i + 1);
    }
  }

  // ---------------------------------------------------------------------------
  // breakVersionString: [epoch:]upstream[-revision] and its validation
  // ---------------------------------------------------------------------------

  datatype VersionError = InvalidUpstream | InvalidRevision

  /** The three components of a valid version string. */
  datatype Parts = Parts(epoch: nat, upstream: string, revision: string)

  /** The raw pieces of a version string, before validation. */
  datatype Pieces = Pieces(epochText: string, upstream: string, hyphen: bool, revision: string)

  /** The upstream, the hyphen when there is one, then the revision. */
  function JoinTail(upstream: string, hyphen: bool, revision: string): string {
    upstream + (if hyphen then "-" else "") + revision
  }

  function EpochPrefix(epochText: string): string {
    if epochText != [] then epochText + ":" else ""
  }

  function JoinPieces(p: Pieces): string {
    EpochPrefix(p.epochText) + JoinTail(p.upstream, p.hyphen, p.revision)
  }

  /** `s` begins with one or more digits followed by a colon (the pattern ^(\d+):). */
  predicate HasEpoch(s: string) {
    exists k :: 0 < k < |s| && s[k] == ':' && Homogeneous(s[..k], true)
  }

  /** Number of epoch digits of `s`, 0 when there is no epoch. */
  function EpochLength(s: string): (e: nat)
    ensures e <= |s|
    ensures e > 0 ==> e < |s| && s[e] == ':'
  {
    var n := SpanLength(s, true);
    if 0 < n < |s| && s[n] == ':' then n else 0
  }

  /** EpochLength finds exactly the epochs the pattern ^(\d+): matches. */
  lemma EpochLengthFindsEpoch(s: string)
    ensures EpochLength(s) > 0 <==> HasEpoch(s)
    ensures Homogeneous(s[..EpochLength(s)], true)
  {
    var n := SpanLength(s, true);
    SpanLengthIsMaximal(s, true);
    if HasEpoch(s) {
      var k :| 0 < k < |s| && s[k] == ':' && Homogeneous(s[..k], true);
      assert forall j :: 0 <= j < k ==> IsDigit(s[j]) by {
        forall j | 0 <= j < k ensures IsDigit(s[j]) { assert s[..k][j] == s[j]; }
      }
      assert n == k;
    }
    if EpochLength(s) > 0 {
      assert Homogeneous(s[..n], true);
    }
  }

  /** An epoch of digits `d` is found in full in d:rest. */
  lemma EpochLengthOfEpoch(d: string, rest: string)
    requires d != [] && Homogeneous(d, true)
    ensures EpochLength(d + ":" + rest) == |d|
    ensures (d + ":" + rest)[..|d|] == d && (d + ":" + rest)[|d| + 1..] == rest
  {
    var s := d + ":" + rest;
    var n := SpanLength(s, true);
    SpanLengthIsMaximal(s, true);
    assert s[|d|] == ':';
  }

  /** Without a colon there is no epoch. */
  lemma EpochLengthWithoutColon(s: string)
    requires ':' !in s
    ensures EpochLength(s) == 0
  {
  }

  /** Index of the last occurrence of `c` in `s`, or -1. */
  function LastIndexOf(s: string, c: char): (k: int)
    ensures -1 <= k < |s|
    ensures k >= 0 ==> s[k] == c
  {
    if s == [] then -1 else if s[|s| - 1] == c then |s| - 1 else LastIndexOf(s[..|s| - 1], c)
  }

  /** No occurrence of `c` follows the one LastIndexOf finds. */
  lemma {:induction false} LastIndexOfIsLast(s: string, c: char)
    ensures forall j :: LastIndexOf(s, c) < j < |s| ==> s[j] != c
  {
    if s != [] && s[|s| - 1] != c {
      LastIndexOfIsLast(s[..|s| - 1], c);
      forall j | LastIndexOf(s, c) < j < |s| - 1 ensures s[j] != c {
        assert s[j] == s[..|s| - 1][j];
      }
    }
  }

  /** In u, c, r with no `c` in r, the last `c` is the one after u. */
  lemma {:induction false} LastIndexOfJoin(u: string, c: char, r: string)
    requires c !in r
    ensures LastIndexOf(u + [c] + r, c) == |u|
  {
    if r != [] {
      var s := u + [c] + r;
      assert s[|s| - 1] == r[|r| - 1];
      assert s[..|s| - 1] == u + [c] + r[..|r| - 1];
      LastIndexOfJoin(u, c, r[..|r| - 1]);
    }
  }

  lemma JoinSlices(u: string, c: char, r: string)
    ensures (u + [c] + r)[..|u|] == u && (u + [c] + r)[|u| + 1..] == r
  {
  }

  /** What follows the epoch and its colon (the whole string when there is no epoch). */
  function AfterEpoch(s: string): string {
    var e := EpochLength(s);
    if e > 0 then s[e + 1..] else s
  }

  /**
   * The decomposition breakVersionString makes: the digits before the first
   * colon as epoch (only when they are all digits), the text after the last
   * hyphen as revision, and the rest as upstream.
   */
  function Split(s: string): Pieces {
    var rest := AfterEpoch(s);
    var h := LastIndexOf(rest, '-');
    if h == -1 then Pieces(s[..EpochLength(s)], rest, false, "")
    else Pieces(s[..EpochLength(s)], rest[..h], true, rest[h + 1..])
  }

  lemma EpochJoins(s: string)
    ensures EpochPrefix(s[..EpochLength(s)]) + AfterEpoch(s) == s
  {
    var e := EpochLength(s);
    if e > 0 {
      assert s == s[..e] + [s[e]] + s[e + 1..];
    }
  }

  lemma TailJoins(rest: string, h: int)
    requires 0 <= h < |rest| && rest[h] == '-'
    ensures JoinTail(rest[..h], true, rest[h + 1..]) == rest
  {
    assert rest == rest[..h] + [rest[h]] + rest[h + 1..];
  }

  /** The pieces put back together give the string. */
  lemma SplitJoins(s: string)
    ensures JoinPieces(Split(s)) == s
  {
    EpochJoins(s);
    var rest := AfterEpoch(s);
    var h := LastIndexOf(rest, '-');
    if h != -1 {
      TailJoins(rest, h);
    } else {
      assert JoinTail(rest, false, "") == rest;
    }
  }

  /**
   * The epoch is all digits and present exactly when the string starts with
   * digits and a colon; the revision holds no hyphen, and without a hyphen
   * there is no revision and the upstream holds no hyphen either.
   */
  lemma SplitShapes(s: string)
    ensures Homogeneous(Split(s).epochText, true)
    ensures Split(s).epochText != [] <==> HasEpoch(s)
    ensures '-' !in Split(s).revision
    ensures !Split(s).hyphen ==> '-' !in Split(s).upstream && Split(s).revision == []
  {
    EpochLengthFindsEpoch(s);
    var rest := AfterEpoch(s);
    var h := LastIndexOf(rest, '-');
    LastIndexOfIsLast(rest, '-');
    if h != -1 {
      var r := rest[h + 1..];
      forall j | 0 <= j < |r| ensures r[j] != '-' {
        assert r[j] == rest[h + 1 + j];
      }
    }
  }

  /** Pieces of the shapes SplitShapes describes are split back out of their join. */
  lemma SplitOfJoin(p: Pieces)
    requires Homogeneous(p.epochText, true)
    requires p.epochText == [] ==> ':' !in p.upstream && ':' !in p.revision
    requires '-' !in p.revision
    requires !p.hyphen ==> '-' !in p.upstream && p.revision == []
    ensures Split(JoinPieces(p)) == p
  {
    var s := JoinPieces(p);
    var tail := JoinTail(p.upstream, p.hyphen, p.revision);
    if p.epochText != [] {
      EpochLengthOfEpoch(p.epochText, tail);
    } else {
      assert s == tail;
      EpochLengthWithoutColon(s);
    }
    assert AfterEpoch(s) == tail;
    if p.hyphen {
      LastIndexOfJoin(p.upstream, '-', p.revision);
      JoinSlices(p.upstream, '-', p.revision);
    } else {
      assert tail == p.upstream;
    }
  }

  predicate UpstreamChar(c: char, colonAllowed: bool) {
    IsLetter(c) || IsDigit(c) || c == '-' || c == '.' || c == '+' || c == '~' || (colonAllowed && c == ':')
  }

  predicate RevisionChar(c: char) {
    IsLetter(c) || IsDigit(c) || c == '.' || c == '+' || c == '~'
  }

  /** breakVersionString: the upstream check comes before the revision check. */
  function BreakVersion(s: string): Result<Parts, VersionError> {
    Validate(Split(s))
  }

  /** The alphabet checks on the pieces, upstream first, and the epoch's value. */
  function Validate(p: Pieces): Result<Parts, VersionError> {
    if !(forall c | c in p.upstream :: UpstreamChar(c, p.epochText != [])) then Failure(InvalidUpstream)
    else if !(forall c | c in p.revision :: RevisionChar(c)) then Failure(InvalidRevision)
    else Success(Parts(DecimalValue(p.epochText), p.upstream, p.revision))
  }

  /**
   * Writing a version from valid pieces and breaking it again gives the
   * pieces back: the epoch's value, the upstream, and the revision (empty
   * when no hyphen was written).
   */
  lemma BreakVersionRoundTrip(p: Pieces)
    requires Homogeneous(p.epochText, true)
    requires forall c | c in p.upstream :: UpstreamChar(c, p.epochText != [])
    requires forall c | c in p.revision :: RevisionChar(c)
    requires !p.hyphen ==> '-' !in p.upstream && p.revision == []
    ensures BreakVersion(JoinPieces(p)) == Success(Parts(DecimalValue(p.epochText), p.upstream, p.revision))
  {
    SplitOfJoin(p);
  }

  /** `0?`: a character outside the upstream alphabet. */
  lemma BreakVersionBadUpstream()
    ensures BreakVersion("0?") == Failure(InvalidUpstream)
  {
    var p := Pieces("", "0?", false, "");
    assert "0?" + "" + "" == "0?";
    assert JoinPieces(p) == "0?";
    SplitOfJoin(p);
    assert "0?"[1] == '?';
    assert '?' in p.upstream && !UpstreamChar('?', false);
  }

  lemma ValidateBadRevision()
    ensures Validate(Pieces("", "1", true, "0?")) == Failure(InvalidRevision)
  {
    var p := Pieces("", "1", true, "0?");
    assert forall c | c in p.upstream :: UpstreamChar(c, false) by {
      assert p.upstream == ['1'];
    }
    assert !(forall c | c in p.revision :: RevisionChar(c)) by {
      assert p.revision[1] == '?';
      assert !RevisionChar(p.revision[1]);
    }
  }

  /** `1-0?`: a character outside the revision alphabet. */
  lemma BreakVersionBadRevision()
    ensures BreakVersion("1-0?") == Failure(InvalidRevision)
  {
    var p := Pieces("", "1", true, "0?");
    assert "1" + "-" + "0?" == "1-0?";
    assert JoinPieces(p) == "1-0?";
    SplitOfJoin(p);
    ValidateBadRevision();
  }

  /** `a:0`: a colon in the upstream of a version without an epoch. */
  lemma BreakVersionColonWithoutEpoch()
    ensures BreakVersion("a:0") == Failure(InvalidUpstream)
  {
    assert SpanLength("a:0", true) == 0;
    assert AfterEpoch("a:0") == "a:0";
    assert LastIndexOf("a:0", '-') == -1 by {
      assert '-' !in "a:0";
    }
    var p := Pieces("", "a:0", false, "");
    assert Split("a:0") == p;
    assert "a:0"[1] == ':';
    assert ':' in p.upstream && !UpstreamChar(':', false);
  }

  // ---------------------------------------------------------------------------
  // version_cmp
  // ---------------------------------------------------------------------------

  /** Epoch first, then upstream, then "no revision" below any revision, then revision. */
  function CompareParts(pa: Parts, pb: Parts): Cmp {
    if pa.epoch != pb.epoch then Num(pa.epoch - pb.epoch)
    else
      var c := PartCmp(pa.upstream, pb.upstream);
      if c != Num(0) then c
      else if |pa.revision| == 0 then (if |pb.revision| == 0 then Num(0) else Num(-1))
      else if |pb.revision| == 0 then Num(1)
      else PartCmp(pa.revision, pb.revision)
  }

  /** version_cmp: the first string is broken (and may throw) before the second. */
  function VersionCmp(a: string, b: string): Result<Cmp, VersionError> {
    match BreakVersion(a)
    case Failure(e) => Failure(e)
    case Success(pa) =>
      match BreakVersion(b)
      case Failure(e) => Failure(e)
      case Success(pb) => Success(CompareParts(pa, pb))
  }

  /**
   * What the source's test suite asserts of each of its pairs: version_cmp gives a
   * positive number for (a, b) and a negative one for (b, a).
   */
  predicate SortsAfter(a: string, b: string) {
    && VersionCmp(a, b).Success? && VersionCmp(a, b).value.Num? && VersionCmp(a, b).value.n > 0
    && VersionCmp(b, a).Success? && VersionCmp(b, a).value.Num? && VersionCmp(b, a).value.n < 0
  }

  /** A valid version compares equal to itself. */
  lemma VersionCmpReflexive(a: string)
    requires BreakVersion(a).Success?
    ensures VersionCmp(a, a) == Success(Num(0))
  {
    var p := BreakVersion(a).value;
    PartCmpFromReflexive(Runs(p.upstream), 0);
    PartCmpFromReflexive(Runs(p.revision), 0);
  }

  /** Swapping two valid versions negates the comparison (NaN stays NaN). */
  lemma VersionCmpSwap(a: string, b: string)
    requires BreakVersion(a).Success? && BreakVersion(b).Success?
    ensures VersionCmp(b, a) == Success(Neg(VersionCmp(a, b).value))
  {
    ComparePartsSwap(BreakVersion(a).value, BreakVersion(b).value);
  }

  lemma ComparePartsSwap(pa: Parts, pb: Parts)
    ensures CompareParts(pb, pa) == Neg(CompareParts(pa, pb))
  {
    if pa.epoch == pb.epoch {
      var c, c' := PartCmp(pa.upstream, pb.upstream), PartCmp(pb.upstream, pa.upstream);
      PartCmpSwap(pa.upstream, pb.upstream);
      assert c' == Neg(c);
      if c == Num(0) && |pa.revision| != 0 && |pb.revision| != 0 {
        PartCmpSwap(pa.revision, pb.revision);
      }
    }
  }

  /** The comparison the documentation intends: an empty digit run counts as zero. */
  function ComparePartsFixed(pa: Parts, pb: Parts): int {
    Lex(pa.epoch - pb.epoch, Lex(PartCmpFixed(pa.upstream, pb.upstream), RevisionCmpFixed(pa.revision, pb.revision)))
  }

  function RevisionCmpFixed(ra: string, rb: string): int {
    if |ra| == 0 then (if |rb| == 0 then 0 else -1)
    else if |rb| == 0 then 1
    else PartCmpFixed(ra, rb)
  }

  function VersionCmpFixed(a: string, b: string): Result<int, VersionError> {
    match BreakVersion(a)
    case Failure(e) => Failure(e)
    case Success(pa) =>
      match BreakVersion(b)
      case Failure(e) => Failure(e)
      case Success(pb) => Success(ComparePartsFixed(pa, pb))
  }

  /** Whenever version_cmp gives a number, it is the intended comparison's number. */
  lemma VersionCmpAgreesWithFixed(a: string, b: string)
    requires VersionCmp(a, b).Success? && VersionCmp(a, b).value != NaN
    ensures VersionCmpFixed(a, b) == Success(VersionCmp(a, b).value.n)
  {
    var pa, pb := BreakVersion(a).value, BreakVersion(b).value;
    PartCmpNaNNeedsRunCountMismatch(pa.upstream, pb.upstream);
    PartCmpNaNNeedsRunCountMismatch(pa.revision, pb.revision);
  }

  lemma RevisionCmpFixedConsistent(ra: string, rb: string, rc: string)
    ensures Consistent(RevisionCmpFixed(ra, rb), RevisionCmpFixed(rb, rc), RevisionCmpFixed(ra, rc))
  {
    PartCmpFixedFromConsistent(Runs(ra), Runs(rb), Runs(rc), 0);
  }

  /** The intended version ordering is a total preorder over valid versions. */
  lemma VersionCmpFixedIsTotalPreorder(a: string, b: string, c: string)
    requires BreakVersion(a).Success? && BreakVersion(b).Success? && BreakVersion(c).Success?
    ensures Consistent(VersionCmpFixed(a, b).value, VersionCmpFixed(b, c).value, VersionCmpFixed(a, c).value)
    ensures VersionCmpFixed(b, a).value == -VersionCmpFixed(a, b).value
    ensures VersionCmpFixed(a, a).value == 0
  {
    var pa, pb, pc := BreakVersion(a).value, BreakVersion(b).value, BreakVersion(c).value;
    PartCmpFixedFromConsistent(Runs(pa.upstream), Runs(pb.upstream), Runs(pc.upstream), 0);
    RevisionCmpFixedConsistent(pa.revision, pb.revision, pc.revision);
    LexConsistent(PartCmpFixed(pa.upstream, pb.upstream), PartCmpFixed(pb.upstream, pc.upstream), PartCmpFixed(pa.upstream, pc.upstream),
                  RevisionCmpFixed(pa.revision, pb.revision), RevisionCmpFixed(pb.revision, pc.revision), RevisionCmpFixed(pa.revision, pc.revision));
    var u1, u2, u3 := Lex(PartCmpFixed(pa.upstream, pb.upstream), RevisionCmpFixed(pa.revision, pb.revision)),
                      Lex(PartCmpFixed(pb.upstream, pc.upstream), RevisionCmpFixed(pb.revision, pc.revision)),
                      Lex(PartCmpFixed(pa.upstream, pc.upstream), RevisionCmpFixed(pa.revision, pc.revision));
    LexConsistent(pa.epoch - pb.epoch, pb.epoch - pc.epoch, pa.epoch - pc.epoch, u1, u2, u3);
    PartCmpFixedFromSwap(Runs(pa.upstream), Runs(pb.upstream), 0);
    PartCmpFixedFromSwap(Runs(pa.revision), Runs(pb.revision), 0);
    PartCmpFixedFromConsistent(Runs(pa.upstream), Runs(pa.upstream), Runs(pa.upstream), 0);
    PartCmpFixedFromSwap(Runs(pa.upstream), Runs(pa.upstream), 0);
    PartCmpFixedFromSwap(Runs(pa.revision), Runs(pa.revision), 0);
  }

  /** A plain upstream version, with neither epoch nor revision, breaks into itself. */
  lemma BreakPlainVersion(s: string)
    requires forall c | c in s :: UpstreamChar(c, false)
    requires '-' !in s
    ensures BreakVersion(s) == Success(Parts(0, s, ""))
  {
    var p := Pieces("", s, false, "");
    assert JoinPieces(p) == s;
    BreakVersionRoundTrip(p);
  }

  /** `1a` against `1a1` gives NaN as written; the intended order puts `1a` first. */
  lemma VersionCmpNaNExample()
    ensures VersionCmp("1a", "1a1") == Success(NaN)
    ensures VersionCmpFixed("1a", "1a1") == Success(-1)
  {
    assert "1a" == ['1', 'a'] && "1a1" == ['1', 'a', '1'];
    BreakPlainVersion("1a");
    BreakPlainVersion("1a1");
    PartCmpNaNExamples();
  }

  /** A maximal run of one kind, followed by a rest that starts with the other kind. */
  lemma {:induction false} SpanLengthOfRun(r: string, t: string, digit: bool)
    requires Homogeneous(r, digit)
    requires t == [] || IsDigit(t[0]) != digit
    ensures SpanLength(r + t, digit) == |r|
  {
    if r != [] {
      assert (r + t)[1..] == r[1..] + t;
      SpanLengthOfRun(r[1..], t, digit);
    } else {
      assert r + t == t;
    }
  }

  /** Peeling that run off the front of the runs. */
  lemma {:induction false} RunsFromCons(r: string, t: string, digit: bool)
    requires Homogeneous(r, digit) && r != []
    requires t == [] || IsDigit(t[0]) != digit
    ensures RunsFrom(r + t, digit) == [r] + RunsFrom(t, !digit)
  {
    SpanLengthOfRun(r, t, digit);
    assert (r + t)[..|r|] == r && (r + t)[|r|..] == t;
  }

  /** A dot and a digit run peeled off together. */
  lemma {:induction false} RunsAfterDot(b: string, t: string)
    requires Homogeneous(b, true) && b != []
    requires t == [] || !IsDigit(t[0])
    ensures RunsFrom("." + (b + t), false) == [".", b] + RunsFrom(t, false)
  {
    assert Homogeneous(".", false);
    RunsFromCons(".", b + t, false);
    RunsFromCons(b, t, true);
  }

  /** The runs of ".b.c", after a digit run. */
  lemma {:induction false} RunsOfDotTail(b: string, c: string)
    requires Homogeneous(b, true) && Homogeneous(c, true)
    requires b != [] && c != []
    ensures RunsFrom("." + (b + ("." + (c + []))), false) == [".", b, ".", c]
  {
    var tail := "." + (c + []);
    RunsAfterDot(c, []);
    assert RunsFrom(tail, false) == [".", c];
    RunsAfterDot(b, tail);
  }

  lemma DottedAssoc(a: string, b: string, c: string)
    ensures a + "." + b + "." + c == a + ("." + (b + ("." + (c + []))))
  {
  }

  /** The runs of three digit runs joined by dots. */
  lemma RunsOfDotted(a: string, b: string, c: string)
    requires Homogeneous(a, true) && Homogeneous(b, true) && Homogeneous(c, true)
    requires a != [] && b != [] && c != []
    ensures Runs(a + "." + b + "." + c) == [a, ".", b, ".", c]
  {
    DottedAssoc(a, b, c);
    RunsOfDotTail(b, c);
    RunsFromCons(a, "." + (b + ("." + (c + []))), true);
    assert [a] + [".", b, ".", c] == [a, ".", b, ".", c];
  }

  /** Two dotted triples that agree in the first run compare by the value of the middle one. */
  lemma {:induction false} PartCmpDotted(a: string, b: string, c: string, b2: string, c2: string)
    requires Homogeneous(a, true) && Homogeneous(b, true) && Homogeneous(c, true)
    requires Homogeneous(b2, true) && Homogeneous(c2, true)
    requires a != [] && b != [] && c != [] && b2 != [] && c2 != []
    requires DecimalValue(b) != DecimalValue(b2)
    ensures PartCmp(a + "." + b + "." + c, a + "." + b2 + "." + c2) == Num(DecimalValue(b) - DecimalValue(b2))
  {
    RunsOfDotted(a, b, c);
    RunsOfDotted(a, b2, c2);
    var ra, rb := [a, ".", b, ".", c], [a, ".", b2, ".", c2];
    VStrCmpZeroIffEqual(".", ".");
    assert RunCmp(ra, rb, 0) == Num(0);
    assert RunCmp(ra, rb, 1) == Num(0);
    assert PartCmpFrom(ra, rb, 2) == Num(DecimalValue(b) - DecimalValue(b2));
    assert PartCmpFrom(ra, rb, 1) == PartCmpFrom(ra, rb, 2);
    assert PartCmpFrom(ra, rb, 0) == PartCmpFrom(ra, rb, 1);
  }

  /** Versions without an epoch or a revision compare as their upstream parts. */
  lemma VersionCmpPlain(x: string, y: string)
    requires forall c | c in x :: UpstreamChar(c, false)
    requires forall c | c in y :: UpstreamChar(c, false)
    requires '-' !in x && '-' !in y
    ensures VersionCmp(x, y) == Success(PartCmp(x, y))
  {
    BreakPlainVersion(x);
    BreakPlainVersion(y);
  }

  /** Digit runs compare by value: 1.10.0 is later than 1.9.0 (a pair of the source's test suite). */
  lemma VersionCmpNumericRuns()
    ensures VersionCmp("1.10.0", "1.9.0") == Success(Num(1))
    ensures SortsAfter("1.10.0", "1.9.0")
  {
    assert "10"[..1] == "1";
    DecimalValueOfDigit('1');
    DecimalValueOfDigit('9');
    assert DecimalValue("10") == 10;
    assert PartCmpFrom(["", ".", "10", ".", "0"], ["", ".", "9", ".", "0"], 0) == Num(1);
    SortsAfterPlain("1.10.0", "1.9.0", "1.", "10.0", "9.0", ["", ".", "10", ".", "0"], ["", ".", "9", ".", "0"]);
  }

  /** Once both strings are broken, the comparison is that of their parts. */
  lemma VersionCmpOfParts(a: string, b: string, pa: Parts, pb: Parts)
    requires BreakVersion(a) == Success(pa) && BreakVersion(b) == Success(pb)
    ensures VersionCmp(a, b) == Success(CompareParts(pa, pb))
  {
  }

  /** An epoch and an upstream part, without a revision, joined. */
  lemma JoinPlain(e: string, u: string)
    requires e != []
    ensures JoinPieces(Pieces(e, u, false, "")) == e + ":" + u
  {
    assert JoinTail(u, false, "") == u;
  }

  /** A version with an epoch and no revision breaks into its epoch value and its upstream part. */
  lemma {:induction false} BreakEpochVersion(e: string, u: string)
    requires Homogeneous(e, true) && e != []
    requires forall c | c in u :: UpstreamChar(c, true)
    requires '-' !in u
    ensures BreakVersion(e + ":" + u) == Success(Parts(DecimalValue(e), u, ""))
  {
    JoinPlain(e, u);
    BreakVersionRoundTrip(Pieces(e, u, false, ""));
  }

  /** `n:1.2` for a one-digit epoch `n`. */
  lemma BreakEpochExample(n: char)
    requires '0' <= n <= '9'
    ensures BreakVersion([n] + ":1.2") == Success(Parts(DecimalValue([n]), "1.2", ""))
  {
    assert [n] + ":" + "1.2" == [n] + ":1.2";
    assert forall c | c in "1.2" :: UpstreamChar(c, true);
    BreakEpochVersion([n], "1.2");
  }

  /** The epoch is compared first: 2:1.2 is later than 1:1.2 (a pair of the source's test suite). */
  lemma VersionCmpEpochFirst()
    ensures VersionCmp("2:1.2", "1:1.2") == Success(Num(1))
    ensures SortsAfter("2:1.2", "1:1.2")
  {
    assert ['2'] + ":1.2" == "2:1.2" && ['1'] + ":1.2" == "1:1.2";
    assert DecimalValue("2") == 2 && DecimalValue("1") == 1;
    BreakEpochExample('2');
    BreakEpochExample('1');
    VersionCmpOfParts("2:1.2", "1:1.2", Parts(2, "1.2", ""), Parts(1, "1.2", ""));
    VersionCmpOfParts("1:1.2", "2:1.2", Parts(1, "1.2", ""), Parts(2, "1.2", ""));
  }

  /** Any revision, even one sorting before everything, is later than no revision. */
  lemma VersionCmpRevisionOverNone(e: string, u: string, r: string)
    requires Homogeneous(e, true)
    requires forall c | c in u :: UpstreamChar(c, e != [])
    requires '-' !in u
    requires forall c | c in r :: RevisionChar(c)
    requires r != []
    ensures VersionCmp(EpochPrefix(e) + u + "-" + r, EpochPrefix(e) + u) == Success(Num(1))
    ensures VersionCmp(EpochPrefix(e) + u, EpochPrefix(e) + u + "-" + r) == Success(Num(-1))
  {
    var pa, pb := Pieces(e, u, true, r), Pieces(e, u, false, "");
    assert JoinPieces(pa) == EpochPrefix(e) + u + "-" + r && JoinPieces(pb) == EpochPrefix(e) + u;
    BreakVersionRoundTrip(pa);
    BreakVersionRoundTrip(pb);
    PartCmpFromReflexive(Runs(u), 0);
  }

  /** 3:1.1235-~ is later than 3:1.1235 (a pair of the source's test suite). */
  lemma VersionCmpRevisionAfterNone()
    ensures VersionCmp("3:1.1235-~", "3:1.1235") == Success(Num(1))
    ensures SortsAfter("3:1.1235-~", "3:1.1235")
  {
    assert "3:1.1235-~" == EpochPrefix("3") + "1.1235" + "-" + "~" && "3:1.1235" == EpochPrefix("3") + "1.1235";
    VersionCmpRevisionOverNone("3", "1.1235", "~");
  }

  // ---------------------------------------------------------------------------
  // Shared starts, and the pairs the source's test suite orders
  // ---------------------------------------------------------------------------

  /** From index i on, non-empty runs alternating in kind, the one at i of kind `digit`. */
  predicate AlternatingRuns(rs: seq<string>, i: nat, digit: bool)
    decreases |rs| - i
  {
    i >= |rs| || (rs[i] != [] && Homogeneous(rs[i], digit) && AlternatingRuns(rs, i + 1, !digit))
  }

  /**
   * Runs of the shape splitCharTypes yields: a digit run, empty only when
   * more runs follow, then non-empty runs alternating in kind.
   */
  predicate IsRuns(rs: seq<string>) {
    rs == [] || (Homogeneous(rs[0], true) && (rs[0] != [] || |rs| > 1) && AlternatingRuns(rs, 1, false))
  }

  lemma {:induction false} RunsFromOfConcat(rs: seq<string>, i: nat, digit: bool)
    requires i <= |rs| && AlternatingRuns(rs, i, digit)
    ensures Concat(rs[i..]) == [] || IsDigit(Concat(rs[i..])[0]) == digit
    ensures RunsFrom(Concat(rs[i..]), digit) == rs[i..]
    decreases |rs| - i
  {
    if i < |rs| {
      RunsFromOfConcat(rs, i + 1, !digit);
      assert rs[i..][0] == rs[i] && rs[i..][1..] == rs[i + 1..];
      RunsFromCons(rs[i], Concat(rs[i + 1..]), digit);
    }
  }

  /** splitCharTypes of runs of its own shape, put together, gives those runs back. */
  lemma RunsOfConcat(rs: seq<string>)
    requires IsRuns(rs)
    ensures Runs(Concat(rs)) == rs
  {
    if rs != [] {
      var t := Concat(rs[1..]);
      RunsFromOfConcat(rs, 1, false);
      if rs[0] == [] {
        assert Concat(rs) == t;
        assert t[..0] == "" && t[0..] == t;
      } else {
        RunsFromCons(rs[0], t, true);
      }
    }
  }

  /**
   * Where a string is followed by text that starts with the other kind of
   * character than it ends with, the runs of the whole are the runs of the
   * string, then the runs of the text.
   */
  lemma {:induction false} RunsFromAppend(p: string, x: string, digit: bool)
    requires p != [] && (digit || !IsDigit(p[0]))
    requires x == [] || IsDigit(x[0]) != IsDigit(p[|p| - 1])
    ensures RunsFrom(p + x, digit) == RunsFrom(p, digit) + RunsFrom(x, !IsDigit(p[|p| - 1]))
    decreases 2 * |p| + (if digit then 1 else 0)
  {
    var n := SpanLength(p, digit);
    if n == |p| {
      RunsFromWhole(p, x, digit);
    } else {
      var q := p[n..];
      assert q[|q| - 1] == p[|p| - 1] && q[0] == p[n];
      var r, rq, rx := p[..n], RunsFrom(q, !digit), RunsFrom(x, !IsDigit(p[|p| - 1]));
      RunsFromAppend(q, x, !digit);
      RunsFromPeel(p, x, digit);
      ConsAppend(RunsFrom(p + x, digit), r, RunsFrom(q + x, !digit), RunsFrom(p, digit), rq, rx);
    }
  }

  /** Putting an element in front of a concatenation, rewritten. */
  lemma ConsAppend<T>(whole: seq<T>, r: T, tail: seq<T>, head: seq<T>, rest: seq<T>, rx: seq<T>)
    requires whole == [r] + tail && tail == rest + rx && head == [r] + rest
    ensures whole == head + rx
  {
  }

  /** A string that is one run, followed by text of the other kind. */
  lemma RunsFromWhole(p: string, x: string, digit: bool)
    requires p != [] && SpanLength(p, digit) == |p|
    requires x == [] || IsDigit(x[0]) != IsDigit(p[|p| - 1])
    ensures IsDigit(p[|p| - 1]) == digit
    ensures RunsFrom(p + x, digit) == [p] + RunsFrom(x, !digit)
    ensures RunsFrom(p, digit) == [p]
  {
    SpanLengthIsMaximal(p, digit);
    assert p[..|p|] == p && p[|p|..] == [];
    RunsFromCons(p, x, digit);
  }

  /** The first run of a string that is longer than it is peeled off the same way whatever follows. */
  lemma RunsFromPeel(p: string, x: string, digit: bool)
    requires SpanLength(p, digit) < |p| && (digit || !IsDigit(p[0]))
    ensures RunsFrom(p + x, digit) == [p[..SpanLength(p, digit)]] + RunsFrom(p[SpanLength(p, digit)..] + x, !digit)
    ensures RunsFrom(p, digit) == [p[..SpanLength(p, digit)]] + RunsFrom(p[SpanLength(p, digit)..], !digit)
  {
    var n := SpanLength(p, digit);
    SpanLengthOfPrefix(p, x, digit);
    assert (p + x)[..n] == p[..n] && (p + x)[n..] == p[n..] + x;
  }

  /** A string has an odd number of runs exactly when its first and last runs are of the same kind. */
  lemma {:induction false} RunsFromParity(p: string, digit: bool)
    requires p != [] && (digit || !IsDigit(p[0]))
    ensures |RunsFrom(p, digit)| % 2 == (if digit == IsDigit(p[|p| - 1]) then 1 else 0)
    decreases 2 * |p| + (if digit then 1 else 0)
  {
    var n := SpanLength(p, digit);
    var k := |RunsFrom(p, digit)|;
    if n == |p| {
      SpanLengthIsMaximal(p, digit);
      assert IsDigit(p[|p| - 1]) == digit && p[n..] == [];
      assert k == 1;
    } else {
      var q := p[n..];
      assert q[|q| - 1] == p[|p| - 1];
      RunsFromParity(q, !digit);
      var kq := |RunsFrom(q, !digit)|;
      assert k == kq + 1;
      ParityStep(k, kq);
    }
  }

  lemma ParityStep(k: nat, kq: nat)
    requires k == kq + 1
    ensures k % 2 == 1 - kq % 2
  {
  }

  /** A span that ends inside a string ends at the same place whatever follows the string. */
  lemma {:induction false} SpanLengthOfPrefix(s: string, t: string, digit: bool)
    requires SpanLength(s, digit) < |s|
    ensures SpanLength(s + t, digit) == SpanLength(s, digit)
  {
    assert (s + t)[0] == s[0];
    if IsDigit(s[0]) == digit {
      assert (s + t)[1..] == s[1..] + t;
      SpanLengthOfPrefix(s[1..], t, digit);
    }
  }

  /** cmpVersionPart passes over the runs two parts share at their start. */
  lemma {:induction false} PartCmpFromCommonRuns(rp: seq<string>, xs: seq<string>, ys: seq<string>, i: nat)
    requires i <= |rp|
    ensures PartCmpFrom(rp + xs, rp + ys, i) == PartCmpFrom(rp + xs, rp + ys, |rp|)
    decreases |rp| - i
  {
    if i < |rp| {
      assert (rp + xs)[i] == rp[i] && (rp + ys)[i] == rp[i];
      VStrCmpZeroIffEqual(rp[i], rp[i]);
      assert RunCmp(rp + xs, rp + ys, i) == Num(0);
      PartCmpFromCommonRuns(rp, xs, ys, i + 1);
    }
  }

  lemma RunCmpShift(rp: seq<string>, rq: seq<string>, xs: seq<string>, ys: seq<string>, i: nat, k: nat)
    requires |rp| <= i && i - |rp| == k - |rq| && |rp| % 2 == |rq| % 2
    ensures RunCmp(rp + xs, rp + ys, i) == RunCmp(rq + xs, rq + ys, k)
  {
    assert RunOrEmpty(rp + xs, i) == RunOrEmpty(xs, i - |rp|) == RunOrEmpty(rq + xs, k);
    assert RunOrEmpty(rp + ys, i) == RunOrEmpty(ys, i - |rp|) == RunOrEmpty(rq + ys, k);
  }

  /** What follows a shared run prefix is compared the same way after any prefix of the same parity. */
  lemma {:induction false} PartCmpFromShift(rp: seq<string>, rq: seq<string>, xs: seq<string>, ys: seq<string>, i: nat, k: nat)
    requires |rp| <= i && i - |rp| == k - |rq| && |rp| % 2 == |rq| % 2
    ensures PartCmpFrom(rp + xs, rp + ys, i) == PartCmpFrom(rq + xs, rq + ys, k)
    decreases |rp| + Max(|xs|, |ys|) - i
  {
    if i - |rp| < |xs| || i - |rp| < |ys| {
      RunCmpShift(rp, rq, xs, ys, i, k);
      PartCmpFromShift(rp, rq, xs, ys, i + 1, k + 1);
    }
  }

  /**
   * A prefix two parts share matters to cmpVersionPart only through its last
   * character, provided what follows it starts a new run on both sides.
   */
  lemma PartCmpSharedPrefix(p: string, x: string, y: string)
    requires p != []
    requires x == [] || IsDigit(x[0]) != IsDigit(p[|p| - 1])
    requires y == [] || IsDigit(y[0]) != IsDigit(p[|p| - 1])
    ensures PartCmp(p + x, p + y) == PartCmp([p[|p| - 1]] + x, [p[|p| - 1]] + y)
  {
    var c := [p[|p| - 1]];
    RunsFromParity(p, true);
    RunsFromParity(c, true);
    RunsFromAppend(p, x, true);
    RunsFromAppend(p, y, true);
    RunsFromAppend(c, x, true);
    RunsFromAppend(c, y, true);
    PartCmpFromSharedRuns(Runs(p), Runs(c), RunsFrom(x, !IsDigit(c[0])), RunsFrom(y, !IsDigit(c[0])));
  }

  /** Shared leading runs matter to cmpVersionPart only through how many there are, odd or even. */
  lemma PartCmpFromSharedRuns(rp: seq<string>, rc: seq<string>, xs: seq<string>, ys: seq<string>)
    requires |rp| % 2 == |rc| % 2
    ensures PartCmpFrom(rp + xs, rp + ys, 0) == PartCmpFrom(rc + xs, rc + ys, 0)
  {
    PartCmpFromCommonRuns(rp, xs, ys, 0);
    PartCmpFromCommonRuns(rc, xs, ys, 0);
    PartCmpFromShift(rp, rc, xs, ys, |rp|, |rc|);
  }

  /** What stands in for a shared start p: its last character, or nothing. */
  function LastOf(p: string): (c: string)
    ensures |c| <= 1 && (c == [] <==> p == [])
    ensures p != [] ==> c[0] == p[|p| - 1]
  {
    if p == [] then [] else [p[|p| - 1]]
  }

  /**
   * Parts a and b start with the same p and go on with x and y, each
   * beginning a new run; xs and ys are the runs of x and y when they follow
   * p's last character.
   */
  predicate DecidedBy(a: string, b: string, p: string, x: string, y: string, xs: seq<string>, ys: seq<string>) {
    && a == p + x && b == p + y
    && (p != [] ==> (x == [] || IsDigit(x[0]) != IsDigit(p[|p| - 1])) && (y == [] || IsDigit(y[0]) != IsDigit(p[|p| - 1])))
    && IsRuns(xs) && Concat(xs) == LastOf(p) + x
    && IsRuns(ys) && Concat(ys) == LastOf(p) + y
  }

  /** cmpVersionPart of two parts is decided by the runs that follow their shared start. */
  lemma PartCmpDecidedBy(a: string, b: string, p: string, x: string, y: string, xs: seq<string>, ys: seq<string>)
    requires DecidedBy(a, b, p, x, y, xs, ys)
    ensures PartCmp(a, b) == PartCmpFrom(xs, ys, 0)
  {
    RunsOfConcat(xs);
    RunsOfConcat(ys);
    if p != [] {
      PartCmpSharedPrefix(p, x, y);
    } else {
      assert a == LastOf(p) + x && b == LastOf(p) + y;
    }
  }

  /**
   * A part that ends in a digit, followed by more text that starts with a
   * non-digit, is later than the part alone, unless that text starts with a
   * tilde, when it is earlier.
   */
  lemma PartCmpLongerPart(p: string, x: string)
    requires p != [] && IsDigit(p[|p| - 1])
    requires x != [] && !IsDigit(x[0])
    ensures PartCmp(p + x, p) == Num(if x[0] == '~' then -1 else 1)
  {
    var c := [p[|p| - 1]];
    PartCmpSharedPrefix(p, x, []);
    assert p + [] == p && c + [] == c;
    assert Homogeneous(c, true);
    RunsFromCons(c, x, true);
    RunsFromCons(c, [], true);
    var xs := RunsFrom(x, false);
    assert [c] + [] == [c];
    assert xs[0] == x[..SpanLength(x, false)] && xs[0][0] == x[0];
    assert RunCmp([c] + xs, [c], 0) == Num(0);
    assert RunCmp([c] + xs, [c], 1) == Num(if x[0] == '~' then -1 else 1);
    assert PartCmpFrom([c] + xs, [c], 0) == PartCmpFrom([c] + xs, [c], 1);
    assert PartCmp(c + x, c) == PartCmpFrom([c] + xs, [c], 0);
  }

  lemma DecimalValueOfDigit(d: char)
    ensures DecimalValue([d]) == DigitValue(d)
  {
    assert [d][..0] == [];
  }

  /** The pieces of a version that breakVersionString accepts. */
  predicate WellFormedPieces(p: Pieces) {
    && Homogeneous(p.epochText, true)
    && (forall c | c in p.upstream :: UpstreamChar(c, p.epochText != []))
    && (forall c | c in p.revision :: RevisionChar(c))
    && (!p.hyphen ==> '-' !in p.upstream && p.revision == [])
  }

  function PartsOf(p: Pieces): Parts {
    Parts(DecimalValue(p.epochText), p.upstream, p.revision)
  }

  /** Two written versions whose parts compare positively sort as the test suite expects. */
  lemma SortsAfterOfPieces(pa: Pieces, pb: Pieces)
    requires WellFormedPieces(pa) && WellFormedPieces(pb)
    requires CompareParts(PartsOf(pa), PartsOf(pb)).Num? && CompareParts(PartsOf(pa), PartsOf(pb)).n > 0
    ensures SortsAfter(JoinPieces(pa), JoinPieces(pb))
  {
    BreakVersionRoundTrip(pa);
    BreakVersionRoundTrip(pb);
    ComparePartsSwap(PartsOf(pa), PartsOf(pb));
  }

  /** Two versions with equal epochs compare as their upstreams do, when those differ. */
  lemma SortsAfterByUpstream(pa: Pieces, pb: Pieces, p: string, x: string, y: string, xs: seq<string>, ys: seq<string>)
    requires WellFormedPieces(pa) && WellFormedPieces(pb)
    requires DecimalValue(pa.epochText) == DecimalValue(pb.epochText)
    requires DecidedBy(pa.upstream, pb.upstream, p, x, y, xs, ys)
    requires PartCmpFrom(xs, ys, 0).Num? && PartCmpFrom(xs, ys, 0).n > 0
    ensures SortsAfter(JoinPieces(pa), JoinPieces(pb))
  {
    PartCmpDecidedBy(pa.upstream, pb.upstream, p, x, y, xs, ys);
    SortsAfterOfPieces(pa, pb);
  }

  /** Two versions that differ only in their revisions compare as those revisions do. */
  lemma SortsAfterByRevision(pa: Pieces, pb: Pieces, p: string, x: string, y: string, xs: seq<string>, ys: seq<string>)
    requires WellFormedPieces(pa) && WellFormedPieces(pb)
    requires pa.epochText == pb.epochText && pa.upstream == pb.upstream
    requires pa.revision != [] && pb.revision != []
    requires DecidedBy(pa.revision, pb.revision, p, x, y, xs, ys)
    requires PartCmpFrom(xs, ys, 0).Num? && PartCmpFrom(xs, ys, 0).n > 0
    ensures SortsAfter(JoinPieces(pa), JoinPieces(pb))
  {
    PartCmpDecidedBy(pa.revision, pb.revision, p, x, y, xs, ys);
    PartCmpFromReflexive(Runs(pa.upstream), 0);
    SortsAfterOfPieces(pa, pb);
  }

  /** Two versions without epoch or revision compare as their upstream parts do. */
  lemma SortsAfterPlain(a: string, b: string, p: string, x: string, y: string, xs: seq<string>, ys: seq<string>)
    requires forall c | c in a :: UpstreamChar(c, false)
    requires forall c | c in b :: UpstreamChar(c, false)
    requires '-' !in a && '-' !in b
    requires DecidedBy(a, b, p, x, y, xs, ys)
    requires PartCmpFrom(xs, ys, 0).Num? && PartCmpFrom(xs, ys, 0).n > 0
    ensures VersionCmp(a, b) == Success(PartCmpFrom(xs, ys, 0))
    ensures SortsAfter(a, b)
  {
    PartCmpDecidedBy(a, b, p, x, y, xs, ys);
    VersionCmpPlain(a, b);
    VersionCmpPlain(b, a);
    PartCmpSwap(a, b);
  }

  /** A plain version, and the same with text after its last digit run. */
  lemma SortsAroundPlainSuffix(p: string, x: string)
    requires forall c | c in p + x :: UpstreamChar(c, false)
    requires '-' !in p + x
    requires p != [] && IsDigit(p[|p| - 1])
    requires x != [] && !IsDigit(x[0])
    ensures if x[0] == '~' then SortsAfter(p, p + x) else SortsAfter(p + x, p)
  {
    assert forall c | c in p :: c in p + x;
    PartCmpLongerPart(p, x);
    BreakPlainVersion(p + x);
    BreakPlainVersion(p);
    PartCmpSwap(p + x, p);
  }

  /** Two versions that differ only in text after the last digit run of one's revision. */
  lemma SortsAroundRevisionSuffix(pa: Pieces, pb: Pieces, x: string)
    requires WellFormedPieces(pa) && WellFormedPieces(pb)
    requires pa.epochText == pb.epochText && pa.upstream == pb.upstream && pa.hyphen && pb.hyphen
    requires pa.revision == pb.revision + x
    requires pb.revision != [] && IsDigit(pb.revision[|pb.revision| - 1])
    requires x != [] && !IsDigit(x[0])
    ensures if x[0] == '~' then SortsAfter(JoinPieces(pb), JoinPieces(pa)) else SortsAfter(JoinPieces(pa), JoinPieces(pb))
  {
    PartCmpLongerPart(pb.revision, x);
    PartCmpSwap(pa.revision, pb.revision);
    PartCmpFromReflexive(Runs(pa.upstream), 0);
    if x[0] == '~' {
      SortsAfterOfPieces(pb, pa);
    } else {
      SortsAfterOfPieces(pa, pb);
    }
  }

  /** 0.3.0 is earlier than 1.9.0: the first digit run decides. */
  lemma VersionCmpZeroMajor()
    ensures SortsAfter("1.9.0", "0.3.0")
  {
    DecimalValueOfDigit('1');
    DecimalValueOfDigit('0');
    SortsAfterPlain("1.9.0", "0.3.0", "", "1.9.0", "0.3.0", ["1", ".", "9", ".", "0"], ["0", ".", "3", ".", "0"]);
  }

  /** 2.9.0 is later than 1.9.0. */
  lemma VersionCmpMajorLater()
    ensures SortsAfter("2.9.0", "1.9.0")
  {
    DecimalValueOfDigit('2');
    DecimalValueOfDigit('1');
    SortsAfterPlain("2.9.0", "1.9.0", "", "2.9.0", "1.9.0", ["2", ".", "9", ".", "0"], ["1", ".", "9", ".", "0"]);
  }

  /** 2.9.0 is later than 1.10.0: the first run decides before the longer second one. */
  lemma VersionCmpMajorBeforeMinor()
    ensures SortsAfter("2.9.0", "1.10.0")
  {
    DecimalValueOfDigit('2');
    DecimalValueOfDigit('1');
    SortsAfterPlain("2.9.0", "1.10.0", "", "2.9.0", "1.10.0", ["2", ".", "9", ".", "0"], ["1", ".", "10", ".", "0"]);
  }

  /** 333 is later than 22.2: a digit run compares by value, whatever follows it. */
  lemma VersionCmpValueNotLength()
    ensures SortsAfter("333", "22.2")
  {
    assert "333"[..2] == "33" && "33"[..1] == "3" && "3"[..0] == "";
    assert "22"[..1] == "2" && "2"[..0] == "";
    SortsAfterPlain("333", "22.2", "", "333", "22.2", ["333"], ["22", ".", "2"]);
  }

  /** 0-b is later than 0-a: revisions compare lexically when the upstreams agree. */
  lemma VersionCmpRevisionLetter()
    ensures SortsAfter("0-b", "0-a")
  {
    var pa, pb := Pieces("", "0", true, "b"), Pieces("", "0", true, "a");
    assert JoinPieces(pa) == "0-b" && JoinPieces(pb) == "0-a";
    SortsAfterByRevision(pa, pb, "", "b", "a", ["", "b"], ["", "a"]);
  }

  /** 0b-0 is later than 0a-0: the upstream's letter run decides. */
  lemma VersionCmpUpstreamLetter()
    ensures SortsAfter("0b-0", "0a-0")
  {
    var pa, pb := Pieces("", "0b", true, "0"), Pieces("", "0a", true, "0");
    assert JoinPieces(pa) == "0b-0" && JoinPieces(pb) == "0a-0";
    SortsAfterByUpstream(pa, pb, "0", "b", "a", ["0", "b"], ["0", "a"]);
  }

  /** 1.0.1 is later than 1.0.0. */
  lemma VersionCmpPatchLater()
    ensures SortsAfter("1.0.1", "1.0.0")
  {
    DecimalValueOfDigit('1');
    DecimalValueOfDigit('0');
    SortsAfterPlain("1.0.1", "1.0.0", "1.0.", "1", "0", ["", ".", "1"], ["", ".", "0"]);
  }

  /** 1.1.0 is later than 1.0.0. */
  lemma VersionCmpMinorLater()
    ensures SortsAfter("1.1.0", "1.0.0")
  {
    DecimalValueOfDigit('1');
    DecimalValueOfDigit('0');
    SortsAfterPlain("1.1.0", "1.0.0", "1.", "1.0", "0.0", ["", ".", "1", ".", "0"], ["", ".", "0", ".", "0"]);
  }

  /** 1.1.0 is later than 1.0.1: the middle run decides before the last. */
  lemma VersionCmpMinorOverPatch()
    ensures SortsAfter("1.1.0", "1.0.1")
  {
    DecimalValueOfDigit('1');
    DecimalValueOfDigit('0');
    SortsAfterPlain("1.1.0", "1.0.1", "1.", "1.0", "0.1", ["", ".", "1", ".", "0"], ["", ".", "0", ".", "1"]);
  }

  /** 1.1.1 is later than 1.1.0. */
  lemma VersionCmpPatchLaterOnMinor()
    ensures SortsAfter("1.1.1", "1.1.0")
  {
    DecimalValueOfDigit('1');
    DecimalValueOfDigit('0');
    SortsAfterPlain("1.1.1", "1.1.0", "1.1.", "1", "0", ["", ".", "1"], ["", ".", "0"]);
  }

  /** 1.0.0 is later than 1.0.0~rc1: a tilde sorts before the end of the part. */
  lemma VersionCmpTildeBeforeEnd()
    ensures SortsAfter("1.0.0", "1.0.0~rc1")
  {
    assert "1.0.0" + "~rc1" == "1.0.0~rc1";
    SortsAroundPlainSuffix("1.0.0", "~rc1");
  }

  /** 1.0.0~rc2 is later than 1.0.0~rc1. */
  lemma VersionCmpTildeRuns()
    ensures SortsAfter("1.0.0~rc2", "1.0.0~rc1")
  {
    DecimalValueOfDigit('2');
    DecimalValueOfDigit('1');
    SortsAfterPlain("1.0.0~rc2", "1.0.0~rc1", "1.0.0~rc", "2", "1", ["", "c", "2"], ["", "c", "1"]);
  }

  /** 1.0.0~rc2+v1 is later than 1.0.0~rc2: more text after an equal start is later, unless it starts with a tilde. */
  lemma VersionCmpPlusAfterEnd()
    ensures SortsAfter("1.0.0~rc2+v1", "1.0.0~rc2")
  {
    assert "1.0.0~rc2" + "+v1" == "1.0.0~rc2+v1";
    SortsAroundPlainSuffix("1.0.0~rc2", "+v1");
  }

  /** 1.0.1~rc2+v2 is later than 1.0.1~rc2+v1. */
  lemma VersionCmpLastDigitRun()
    ensures SortsAfter("1.0.1~rc2+v2", "1.0.1~rc2+v1")
  {
    DecimalValueOfDigit('2');
    DecimalValueOfDigit('1');
    SortsAfterPlain("1.0.1~rc2+v2", "1.0.1~rc2+v1", "1.0.1~rc2+v", "2", "1", ["", "v", "2"], ["", "v", "1"]);
  }

  /** 1.0.0+v10 is later than 1.0.0+v1. */
  lemma VersionCmpLongerDigitRun()
    ensures SortsAfter("1.0.0+v10", "1.0.0+v1")
  {
    assert "10"[..1] == "1";
    DecimalValueOfDigit('1');
    SortsAfterPlain("1.0.0+v10", "1.0.0+v1", "1.0.0+v", "10", "1", ["", "v", "10"], ["", "v", "1"]);
  }

  /** The upstream 2.11 is later than 2.10: its last digit run is. */
  lemma ElevenAfterTen()
    ensures DecidedBy("2.11", "2.10", "2.", "11", "10", ["", ".", "11"], ["", ".", "10"])
    ensures PartCmpFrom(["", ".", "11"], ["", ".", "10"], 0) == Num(1)
  {
    assert "11"[..1] == "1" && "10"[..1] == "1";
    DecimalValueOfDigit('1');
  }

  /** 2.11-9 is later than 2.10-18+deb7u4: the upstream decides before the revision. */
  lemma VersionCmpUpstreamOverRevision()
    ensures SortsAfter("2.11-9", "2.10-18+deb7u4")
  {
    var pa, pb := Pieces("", "2.11", true, "9"), Pieces("", "2.10", true, "18+deb7u4");
    assert JoinPieces(pa) == "2.11-9" && JoinPieces(pb) == "2.10-18+deb7u4";
    ElevenAfterTen();
    SortsAfterByUpstream(pa, pb, "2.", "11", "10", ["", ".", "11"], ["", ".", "10"]);
  }

  /** 2.11-18+deb7u4 is later than 2.11-18: more revision after an equal start is later. */
  lemma VersionCmpRevisionPlusSuffix()
    ensures SortsAfter("2.11-18+deb7u4", "2.11-18")
  {
    var pa, pb := Pieces("", "2.11", true, "18+deb7u4"), Pieces("", "2.11", true, "18");
    assert JoinPieces(pa) == "2.11-18+deb7u4" && JoinPieces(pb) == "2.11-18";
    assert "18" + "+deb7u4" == "18+deb7u4";
    SortsAroundRevisionSuffix(pa, pb, "+deb7u4");
  }

  /** 2.11-18 is later than 2.11-18~deb7u4: a tilde suffix sorts before the end of the revision. */
  lemma VersionCmpRevisionTildeSuffix()
    ensures SortsAfter("2.11-18", "2.11-18~deb7u4")
  {
    var pa, pb := Pieces("", "2.11", true, "18~deb7u4"), Pieces("", "2.11", true, "18");
    assert JoinPieces(pa) == "2.11-18~deb7u4" && JoinPieces(pb) == "2.11-18";
    assert "18" + "~deb7u4" == "18~deb7u4";
    SortsAroundRevisionSuffix(pa, pb, "~deb7u4");
  }

  /** 2.11-18~deb7u4 is later than 2.10-18. */
  lemma VersionCmpUpstreamOverTilde()
    ensures SortsAfter("2.11-18~deb7u4", "2.10-18")
  {
    var pa, pb := Pieces("", "2.11", true, "18~deb7u4"), Pieces("", "2.10", true, "18");
    assert JoinPieces(pa) == "2.11-18~deb7u4" && JoinPieces(pb) == "2.10-18";
    ElevenAfterTen();
    SortsAfterByUpstream(pa, pb, "2.", "11", "10", ["", ".", "11"], ["", ".", "10"]);
  }

  /** The upstream 1.1235 is later than 1.1234. */
  lemma UpstreamAfterByOne()
    ensures DecidedBy("1.1235", "1.1234", "1.", "1235", "1234", ["", ".", "1235"], ["", ".", "1234"])
    ensures PartCmpFrom(["", ".", "1235"], ["", ".", "1234"], 0) == Num(1)
  {
    assert "1235"[..3] == "123" && "1234"[..3] == "123";
  }

  /** 2:1.1235-1 is later than 2:1.1234-4: with equal epochs the upstream decides. */
  lemma VersionCmpUpstreamWithEpoch()
    ensures SortsAfter("2:1.1235-1", "2:1.1234-4")
  {
    var pa, pb := Pieces("2", "1.1235", true, "1"), Pieces("2", "1.1234", true, "4");
    assert JoinPieces(pa) == "2:1.1235-1" && JoinPieces(pb) == "2:1.1234-4";
    UpstreamAfterByOne();
    SortsAfterByUpstream(pa, pb, "1.", "1235", "1234", ["", ".", "1235"], ["", ".", "1234"]);
  }

  /** 3:1.1235-1 is later than 2:1.1234-4: the epoch decides first. */
  lemma VersionCmpEpochOverUpstream()
    ensures SortsAfter("3:1.1235-1", "2:1.1234-4")
  {
    var pa, pb := Pieces("3", "1.1235", true, "1"), Pieces("2", "1.1234", true, "4");
    assert JoinPieces(pa) == "3:1.1235-1" && JoinPieces(pb) == "2:1.1234-4";
    DecimalValueOfDigit('3');
    DecimalValueOfDigit('2');
    SortsAfterOfPieces(pa, pb);
  }

  /** 3:1.1235-4 is later than 3:1.1235: a revision is later than none. */
  lemma VersionCmpRevisionOverNoneExample()
    ensures SortsAfter("3:1.1235-4", "3:1.1235")
  {
    assert "3:1.1235-4" == EpochPrefix("3") + "1.1235" + "-" + "4" && "3:1.1235" == EpochPrefix("3") + "1.1235";
    VersionCmpRevisionOverNone("3", "1.1235", "4");
  }

  /** 0:1-2 compares equal to itself. */
  lemma VersionCmpIdentical()
    ensures VersionCmp("0:1-2", "0:1-2") == Success(Num(0))
  {
    var p := Pieces("0", "1", true, "2");
    assert JoinPieces(p) == "0:1-2";
    BreakVersionRoundTrip(p);
    VersionCmpReflexive("0:1-2");
  }
}
