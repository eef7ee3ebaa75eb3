/**
 * The string primitives that the field-value parsers of src/aptreader.ts are
 * built from: JavaScript's `\s` class, `String.prototype.trim`, and
 * `String.prototype.split` with a one-character separator.
 */
module Text {

  /** The characters JavaScript's `\s` matches: WhiteSpace and LineTerminator of ECMA-262. */
  predicate IsSpace(c: char) {
    c == ' ' || c == '\t' || c == '\n' || c == '\r' || c == '\U{000B}' || c == '\U{000C}'
    || c == '\U{00A0}' || c == '\U{1680}' || ('\U{2000}' <= c <= '\U{200A}') || c == '\U{2028}'
    || c == '\U{2029}' || c == '\U{202F}' || c == '\U{205F}' || c == '\U{3000}' || c == '\U{FEFF}'
  }

  /** The characters at which `^` and `$` match in a multiline regular expression. */
  predicate IsTerminator(c: char) {
    c == '\n' || c == '\r' || c == '\U{2028}' || c == '\U{2029}'
  }

  predicate AllSpace(s: string) {
    forall k :: 0 <= k < |s| ==> IsSpace(s[k])
  }

  predicate NoSpace(s: string) {
    forall k :: 0 <= k < |s| ==> !IsSpace(s[k])
  }

  /** Length of the longest prefix of `s` made only of whitespace (`space`) or only of other characters. */
  function Span(s: string, space: bool): (n: nat)
    ensures n <= |s|
    ensures n < |s| ==> IsSpace(s[n]) != space
  {
    if s == [] || IsSpace(s[0]) != space then 0 else 1 + Span(s[1..], space)
  }

  /** The span is homogeneous (its maximality is Span's own postcondition). */
  lemma {:induction false} SpanIsHomogeneous(s: string, space: bool)
    ensures forall k :: 0 <= k < Span(s, space) ==> IsSpace(s[k]) == space
  {
    if s != [] && IsSpace(s[0]) == space {
      SpanIsHomogeneous(s[1..], space);
      forall k | 0 < k < Span(s, space)
        ensures IsSpace(s[k]) == space
      {
        assert s[k] == s[1..][k - 1];
      }
    }
  }

  /** A homogeneous prefix followed by a character of the other kind is exactly the span. */
  lemma {:induction false} SpanOfConcat(x: string, y: string, space: bool)
    requires forall k :: 0 <= k < |x| ==> IsSpace(x[k]) == space
    requires y == [] || IsSpace(y[0]) != space
    ensures Span(x + y, space) == |x|
  {
    if x == [] {
      assert x + y == y;
    } else {
      assert (x + y)[1..] == x[1..] + y;
      SpanOfConcat(x[1..], y, space);
    }
  }

  /** The end of the run of whitespace (`space`) or of other characters that starts at `i`. */
  function SkipRun(s: string, i: nat, space: bool): (j: nat)
    requires i <= |s|
    ensures i <= j <= |s|
    ensures j < |s| ==> IsSpace(s[j]) != space
    decreases |s| - i
  {
    if i == |s| || IsSpace(s[i]) != space then i else SkipRun(s, i + 1, space)
  }

  lemma {:induction false} SkipRunHomogeneous(s: string, i: nat, space: bool)
    requires i <= |s|
    ensures forall k :: i <= k < SkipRun(s, i, space) ==> IsSpace(s[k]) == space
    decreases |s| - i
  {
    if i < |s| && IsSpace(s[i]) == space {
      SkipRunHomogeneous(s, i + 1, space);
    }
  }

  lemma {:induction false} SkipRunTo(s: string, i: nat, j: nat, space: bool)
    requires i <= j <= |s|
    requires forall k :: i <= k < j ==> IsSpace(s[k]) == space
    requires j == |s| || IsSpace(s[j]) != space
    ensures SkipRun(s, i, space) == j
    decreases j - i
  {
    if i < j {
      SkipRunTo(s, i + 1, j, space);
    }
  }

  lemma {:induction false} SkipRunIsSpan(s: string, i: nat, space: bool)
    requires i <= |s|
    ensures SkipRun(s, i, space) == i + Span(s[i..], space)
    decreases |s| - i
  {
    if i < |s| && IsSpace(s[i]) == space {
      SkipRunIsSpan(s, i + 1, space);
      assert s[i..][1..] == s[i + 1..];
    }
  }

  /** `s` cut after its leading run of non-whitespace (`\S+` taken greedily). */
  function Word(s: string): (r: (string, string))
    ensures |r.0| + |r.1| == |s|
  {
    var n := Span(s, false);
    assert s[..n] + s[n..] == s;
    (s[..n], s[n..])
  }

  /** `s` cut after its leading run of whitespace (`\s*` taken greedily). */
  function Gap(s: string): (r: (string, string))
    ensures |r.0| + |r.1| == |s|
  {
    var n := Span(s, true);
    assert s[..n] + s[n..] == s;
    (s[..n], s[n..])
  }

  lemma WordOf(w: string, rest: string)
    requires NoSpace(w)
    requires rest == [] || IsSpace(rest[0])
    ensures Word(w + rest) == (w, rest)
  {
    SpanOfConcat(w, rest, false);
    assert (w + rest)[..|w|] == w && (w + rest)[|w|..] == rest;
  }

  lemma GapOf(g: string, rest: string)
    requires AllSpace(g)
    requires rest == [] || !IsSpace(rest[0])
    ensures Gap(g + rest) == (g, rest)
  {
    SpanOfConcat(g, rest, true);
    assert (g + rest)[..|g|] == g && (g + rest)[|g|..] == rest;
  }

  lemma WordShape(s: string)
    ensures NoSpace(Word(s).0) && (Word(s).1 == [] || IsSpace(Word(s).1[0]))
  {
    SpanIsHomogeneous(s, false);
  }

  lemma GapShape(s: string)
    ensures AllSpace(Gap(s).0) && (Gap(s).1 == [] || !IsSpace(Gap(s).1[0]))
  {
    SpanIsHomogeneous(s, true);
  }

  // ---------------------------------------------------------------------------
  // trim
  // ---------------------------------------------------------------------------

  function TrimLeft(s: string): string {
    s[Span(s, true)..]
  }

  function TrimRight(s: string): (t: string)
    ensures |t| <= |s| && t == s[..|t|]
  {
    if s != [] && IsSpace(s[|s| - 1]) then TrimRight(s[..|s| - 1]) else s
  }

  /** String.prototype.trim. */
  function Trim(s: string): string {
    TrimRight(TrimLeft(s))
  }

  /** Neither end is whitespace. */
  predicate Trimmed(t: string) {
    t == [] || (!IsSpace(t[0]) && !IsSpace(t[|t| - 1]))
  }

  lemma {:induction false} TrimRightIsTrimmed(s: string)
    requires s == [] || !IsSpace(s[0])
    ensures Trimmed(TrimRight(s))
    ensures AllSpace(s[|TrimRight(s)|..])
    decreases |s|
  {
    if s != [] && IsSpace(s[|s| - 1]) {
      var s' := s[..|s| - 1];
      TrimRightIsTrimmed(s');
      var n := |TrimRight(s')|;
      assert s[n..] == s'[n..] + [s[|s| - 1]];
    }
  }

  /** trim leaves a trimmed infix of `s`, with only whitespace cut on either side. */
  lemma {:induction false} TrimIsInfix(s: string)
    ensures var i := Span(s, true);
      var t := Trim(s);
      Trimmed(t) && i + |t| <= |s| && t == s[i..i + |t|]
      && AllSpace(s[..i]) && AllSpace(s[i + |t|..])
  {
    var i := Span(s, true);
    SpanIsHomogeneous(s, true);
    TrimRightIsTrimmed(s[i..]);
    var t := Trim(s);
    assert s[i + |t|..] == s[i..][|t|..];
  }

  lemma {:induction false} TrimRightOfPadded(t: string, b: string)
    requires Trimmed(t) && AllSpace(b)
    ensures TrimRight(t + b) == t
    decreases |b|
  {
    if b == [] {
      assert t + b == t;
    } else {
      assert (t + b)[..|t + b| - 1] == t + b[..|b| - 1];
      TrimRightOfPadded(t, b[..|b| - 1]);
    }
  }

  /** trim takes back exactly the whitespace padded around a trimmed string. */
  lemma TrimOfPadded(a: string, t: string, b: string)
    requires AllSpace(a) && Trimmed(t) && AllSpace(b)
    ensures Trim(a + t + b) == t
  {
    if t == [] {
      assert a + t + b == a + b;
      SpanOfConcat(a + b, [], true);
      assert TrimLeft(a + t + b) == [];
    } else {
      assert a + t + b == a + (t + b);
      SpanOfConcat(a, t + b, true);
      assert TrimLeft(a + t + b) == t + b;
      TrimRightOfPadded(t, b);
    }
  }

  /** trim is idempotent. */
  lemma TrimIdempotent(s: string)
    ensures Trim(Trim(s)) == Trim(s)
  {
    TrimIsInfix(s);
    var t := Trim(s);
    assert [] + t + [] == t;
    TrimOfPadded([], t, []);
  }

  // ---------------------------------------------------------------------------
  // split with a one-character separator
  // ---------------------------------------------------------------------------

  /** String.prototype.split(c): the pieces between the occurrences of `c`; always at least one. */
  function SplitOn(s: string, c: char): (pieces: seq<string>)
    ensures |pieces| >= 1
  {
    if s == [] then [[]]
    else
      var rest := SplitOn(s[1..], c);
      if s[0] == c then [[]] + rest else [[s[0]] + rest[0]] + rest[1..]
  }

  /** The pieces joined by `sep`. */
  function Join(pieces: seq<string>, sep: string): string {
    if pieces == [] then []
    else if |pieces| == 1 then pieces[0]
    else pieces[0] + sep + Join(pieces[1..], sep)
  }

  /** No piece holds the separator. */
  lemma {:induction false} SplitOnPieces(s: string, c: char)
    ensures forall k :: 0 <= k < |SplitOn(s, c)| ==> c !in SplitOn(s, c)[k]
  {
    if s != [] {
      SplitOnPieces(s[1..], c);
    }
  }

  /** Joining the pieces with the separator gives the string back. */
  lemma {:induction false} SplitOnJoins(s: string, c: char)
    ensures Join(SplitOn(s, c), [c]) == s
  {
    if s != [] {
      var rest := SplitOn(s[1..], c);
      SplitOnJoins(s[1..], c);
      if s[0] == c {
        assert ([[]] + rest)[1..] == rest;
      } else if |rest| == 1 {
        assert Join(rest, [c]) == rest[0];
      } else {
        var out := [[s[0]] + rest[0]] + rest[1..];
        assert out[1..] == rest[1..];
        assert Join(rest, [c]) == rest[0] + [c] + Join(rest[1..], [c]);
      }
    }
  }

  /** A piece without the separator, then the separator, splits off as the first piece. */
  lemma {:induction false} SplitOnPrefix(p: string, c: char, rest: string)
    requires c !in p
    ensures SplitOn(p + [c] + rest, c) == [p] + SplitOn(rest, c)
  {
    if p == [] {
      assert p + [c] + rest == [c] + rest;
      assert ([c] + rest)[1..] == rest;
    } else {
      assert (p + [c] + rest)[1..] == p[1..] + [c] + rest;
      SplitOnPrefix(p[1..], c, rest);
      assert [p[0]] + p[1..] == p;
    }
  }

  lemma {:induction false} SplitOnWithout(p: string, c: char)
    requires c !in p
    ensures SplitOn(p, c) == [p]
  {
    if p != [] {
      SplitOnWithout(p[1..], c);
      assert [p[0]] + p[1..] == p;
    }
  }

  /** Splitting pieces that do not hold the separator, once joined by it, gives them back. */
  lemma {:induction false} JoinSplits(pieces: seq<string>, c: char)
    requires |pieces| >= 1
    requires forall k :: 0 <= k < |pieces| ==> c !in pieces[k]
    ensures SplitOn(Join(pieces, [c]), c) == pieces
  {
    if |pieces| == 1 {
      SplitOnWithout(pieces[0], c);
    } else {
      JoinSplits(pieces[1..], c);
      SplitOnPrefix(pieces[0], c, Join(pieces[1..], [c]));
    }
  }
}
