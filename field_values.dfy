/**
 * The value parsers of src/aptreader.ts that turn a field's trimmed text into
 * a list: `commas`, `splitspace`, `splitlines`, `multiline` and `filespecs`.
 * Each regular expression of the source is written out as the scan it
 * performs, with JavaScript's whitespace class `\s` and its multiline `^`/`$`.
 */
module FieldValues {
  import opened Wrappers
  import opened Text
  import VersionCmp

  // ---------------------------------------------------------------------------
  // commas: split at ',' (with the whitespace around it), trim, drop empty items
  // ---------------------------------------------------------------------------

  /** The items trimmed, the empty ones dropped. */
  function TrimmedItems(items: seq<string>): seq<string> {
    if items == [] then []
    else
      var t := Trim(items[0]);
      (if t == [] then [] else [t]) + TrimmedItems(items[1..])
  }

  /**
   * commas. Splitting at `\s*,\s*` and then trimming every piece is the same
   * as splitting at ',' and trimming, since the pieces are trimmed anyway.
   */
  function Commas(s: string): seq<string> {
    TrimmedItems(SplitOn(s, ','))
  }

  /** A list item of a comma-separated field: non-empty, trimmed, no ','. */
  predicate ListItem(t: string) {
    t != [] && Trimmed(t) && ',' !in t
  }

  lemma {:induction false} TrimmedItemsAreItems(items: seq<string>)
    requires forall k :: 0 <= k < |items| ==> ',' !in items[k]
    ensures forall k :: 0 <= k < |TrimmedItems(items)| ==> ListItem(TrimmedItems(items)[k])
  {
    if items != [] {
      TrimmedItemsAreItems(items[1..]);
      TrimIsInfix(items[0]);
      var i := Span(items[0], true);
      var t := Trim(items[0]);
      assert forall k :: 0 <= k < |t| ==> t[k] == items[0][i + k];
    }
  }

  /** Every item commas yields is non-empty and trimmed and holds no ','. */
  lemma CommasItems(s: string)
    ensures forall k :: 0 <= k < |Commas(s)| ==> ListItem(Commas(s)[k])
  {
    SplitOnPieces(s, ',');
    TrimmedItemsAreItems(SplitOn(s, ','));
  }

  /** Every item after the first, with the space that follows a ',' in a list. */
  function Spaced(items: seq<string>): seq<string>
    requires items != []
  {
    [items[0]] + seq(|items| - 1, k requires 0 <= k < |items| - 1 => " " + items[k + 1])
  }

  lemma {:induction false} JoinSpaced(items: seq<string>)
    requires items != []
    ensures Join(items, ", ") == Join(Spaced(items), ",")
  {
    if |items| > 1 {
      JoinSpaced(items[1..]);
      var sp := Spaced(items);
      assert sp[1..] == [" " + items[1]] + Spaced(items[1..])[1..];
      assert Join(sp[1..], ",") == " " + Join(Spaced(items[1..]), ",");
    }
  }

  lemma {:induction false} TrimmedItemsOfSpaced(items: seq<string>)
    requires items != []
    requires forall k :: 0 <= k < |items| ==> ListItem(items[k])
    ensures TrimmedItems(Spaced(items)) == items
  {
    var sp := Spaced(items);
    assert [] + items[0] + [] == items[0];
    TrimOfPadded([], items[0], []);
    if |items| > 1 {
      TrimmedItemsOfSpaced(items[1..]);
      assert sp[1..] == [" " + items[1]] + Spaced(items[1..])[1..];
      assert " " + items[1] + [] == " " + items[1];
      TrimOfPadded(" ", items[1], []);
      assert TrimmedItems(sp[1..]) == [items[1]] + TrimmedItems(Spaced(items[1..])[1..]);
      assert TrimmedItems(Spaced(items[1..])) == [items[1]] + TrimmedItems(Spaced(items[1..])[1..]);
    } else {
      assert sp == [items[0]];
    }
  }

  lemma SpacedHasNoComma(items: seq<string>)
    requires items != []
    requires forall k :: 0 <= k < |items| ==> ListItem(items[k])
    ensures forall k :: 0 <= k < |Spaced(items)| ==> ',' !in Spaced(items)[k]
  {
    var sp := Spaced(items);
    forall k | 0 <= k < |sp|
      ensures ',' !in sp[k]
    {
      if k > 0 {
        assert sp[k] == " " + items[k];
      }
    }
  }

  /** commas reads back a list written the way control files write it, "a, b, c". */
  lemma {:induction false} CommasOfJoin(items: seq<string>)
    requires items != []
    requires forall k :: 0 <= k < |items| ==> ListItem(items[k])
    ensures Commas(Join(items, ", ")) == items
  {
    JoinSpaced(items);
    SpacedHasNoComma(items);
    JoinSplits(Spaced(items), ',');
    TrimmedItemsOfSpaced(items);
  }

  // ---------------------------------------------------------------------------
  // splitspace: the maximal runs of non-whitespace
  // ---------------------------------------------------------------------------

  /** splitspace: split at every whitespace run, drop the empty pieces. */
  function SplitSpace(s: string): seq<string>
    decreases |s|
  {
    var t := TrimLeft(s);
    if t == [] then []
    else
      var n := Span(t, false);
      [t[..n]] + SplitSpace(t[n..])
  }

  /** Every word splitspace yields is non-empty and holds no whitespace. */
  lemma {:induction false} SplitSpaceWords(s: string)
    ensures forall k :: 0 <= k < |SplitSpace(s)| ==> SplitSpace(s)[k] != [] && NoSpace(SplitSpace(s)[k])
    decreases |s|
  {
    var t := TrimLeft(s);
    if t != [] {
      var n := Span(t, false);
      SpanIsHomogeneous(t, false);
      SplitSpaceWords(t[n..]);
    }
  }

  lemma {:induction false} SplitSpaceOfWord(w: string, rest: string)
    requires w != [] && NoSpace(w)
    requires rest == [] || IsSpace(rest[0])
    ensures SplitSpace(w + rest) == [w] + SplitSpace(rest)
  {
    SpanOfConcat([], w + rest, true);
    assert [] + (w + rest) == w + rest;
    SpanOfConcat(w, rest, false);
    assert (w + rest)[..|w|] == w && (w + rest)[|w|..] == rest;
  }

  lemma {:induction false} SplitSpaceOfSpace(rest: string)
    requires rest == [] || !IsSpace(rest[0])
    ensures SplitSpace(" " + rest) == SplitSpace(rest)
  {
    SpanOfConcat(" ", rest, true);
    assert (" " + rest)[1..] == rest;
    SpanOfConcat([], rest, true);
    assert [] + rest == rest;
  }

  /** splitspace reads back words joined by single spaces. */
  lemma {:induction false} SplitSpaceOfJoin(words: seq<string>)
    requires forall k :: 0 <= k < |words| ==> words[k] != [] && NoSpace(words[k])
    ensures SplitSpace(Join(words, " ")) == words
  {
    if |words| == 1 {
      assert Join(words, " ") == words[0];
      SplitSpaceOfWord(words[0], []);
      assert words[0] + [] == words[0];
    } else if |words| > 1 {
      var w := words[0];
      var rest := Join(words[1..], " ");
      assert Join(words, " ") == w + " " + rest;
      assert [w] + words[1..] == words;
      SplitSpaceOfJoin(words[1..]);
      assert rest[0] == words[1][0] by {
        if |words| > 2 {
          assert rest == words[1] + " " + Join(words[2..], " ");
        }
      }
      assert w + " " + rest == w + (" " + rest);
      SplitSpaceOfWord(w, " " + rest);
      SplitSpaceOfSpace(rest);
    }
  }

  // ---------------------------------------------------------------------------
  // splitlines: split at `\r?\n\s*`
  // ---------------------------------------------------------------------------

  /** Index of the first `c` in `s`, or -1. */
  function IndexOf(s: string, c: char): (k: int)
    ensures -1 <= k < |s|
    ensures k >= 0 ==> s[k] == c && c !in s[..k]
    ensures k < 0 ==> c !in s
  {
    if s == [] then -1
    else if s[0] == c then 0
    else
      var k := IndexOf(s[1..], c);
      if k < 0 then -1
      else
        assert s[..k + 1] == [s[0]] + s[1..][..k];
        k + 1
  }

  /**
   * splitlines. A separator starts at the first LF, or at the CR just before
   * it, and takes all the whitespace after the LF, blank lines included.
   */
  function SplitLines(s: string): seq<string>
    decreases |s|
  {
    var j := IndexOf(s, '\n');
    if j < 0 then [s]
    else
      var k := if j > 0 && s[j - 1] == '\r' then j - 1 else j;
      var e := j + 1 + Span(s[j + 1..], true);
      [s[..k]] + SplitLines(s[e..])
  }

  /** No line splitlines yields holds an LF. */
  lemma {:induction false} SplitLinesHaveNoNewline(s: string)
    ensures forall k :: 0 <= k < |SplitLines(s)| ==> '\n' !in SplitLines(s)[k]
    decreases |s|
  {
    var j := IndexOf(s, '\n');
    if j >= 0 {
      var e := j + 1 + Span(s[j + 1..], true);
      SplitLinesHaveNoNewline(s[e..]);
      var k := if j > 0 && s[j - 1] == '\r' then j - 1 else j;
      assert s[..k] == s[..j][..k];
    }
  }

  /** A line splitlines gives back: no LF, no CR at its end. */
  predicate PlainLine(l: string) {
    '\n' !in l && (l == [] || l[|l| - 1] != '\r')
  }

  lemma {:induction false} IndexOfJoin(l: string, c: char, rest: string)
    requires c !in l
    ensures IndexOf(l + [c] + rest, c) == |l|
  {
    if l == [] {
      assert (l + [c] + rest)[0] == c;
    } else {
      assert (l + [c] + rest)[1..] == l[1..] + [c] + rest;
      IndexOfJoin(l[1..], c, rest);
    }
  }

  lemma {:induction false} SplitLinesOfLine(l: string, rest: string)
    requires PlainLine(l)
    requires rest != [] && !IsSpace(rest[0])
    ensures SplitLines(l + "\n" + rest) == [l] + SplitLines(rest)
  {
    var s := l + "\n" + rest;
    IndexOfJoin(l, '\n', rest);
    assert s[..|l|] == l;
    assert s[|l| + 1..] == rest;
    assert Span(rest, true) == 0;
  }

  /**
   * splitlines reads back lines joined by LF, when every line after the
   * first starts with a character other than whitespace (the separator
   * takes whitespace, so it would take an indent or a blank line too).
   */
  lemma {:induction false} SplitLinesOfJoin(lines: seq<string>)
    requires lines != []
    requires forall k :: 0 <= k < |lines| ==> PlainLine(lines[k])
    requires forall k :: 0 < k < |lines| ==> lines[k] != [] && !IsSpace(lines[k][0])
    ensures SplitLines(Join(lines, "\n")) == lines
  {
    if |lines| == 1 {
      assert Join(lines, "\n") == lines[0];
      assert IndexOf(lines[0], '\n') < 0;
      assert SplitLines(lines[0]) == [lines[0]];
    } else {
      var rest := Join(lines[1..], "\n");
      assert Join(lines, "\n") == lines[0] + "\n" + rest;
      SplitLinesOfJoin(lines[1..]);
      assert rest[0] == lines[1][0] by {
        if |lines| > 2 {
          assert rest == lines[1] + "\n" + Join(lines[2..], "\n");
        }
      }
      SplitLinesOfLine(lines[0], rest);
      assert [lines[0]] + lines[1..] == lines;
    }
  }

  // ---------------------------------------------------------------------------
  // multiline: remove every match of `^\s*\.\s*$` (multiline mode)
  // ---------------------------------------------------------------------------

  /** Index of the last line terminator in `s`, or -1. */
  function LastTerminator(s: string): (k: int)
    ensures -1 <= k < |s|
    ensures k >= 0 ==> IsTerminator(s[k])
  {
    if s == [] then -1
    else if IsTerminator(s[|s| - 1]) then |s| - 1
    else LastTerminator(s[..|s| - 1])
  }

  /**
   * The length of a match of `\s*$` at the start of `t`: the whitespace run
   * whole if it reaches the end, otherwise cut back to its last line
   * terminator; no match if it holds none.
   */
  function LineEnd(t: string): (k: Option<nat>)
    ensures k.Some? ==> k.value <= |t|
  {
    var (w, u) := Gap(t);
    if u == [] then Some(|t|)
    else
      var k := LastTerminator(w);
      if k < 0 then None else Some(k)
  }

  /** The length of a match of `^\s*\.\s*$` at the start of `s`, which is a line start. */
  function DotLine(s: string): (e: Option<nat>)
    ensures e.Some? ==> 0 < e.value <= |s|
  {
    var rest := Gap(s).1;
    if rest == [] || rest[0] != '.' then None
    else
      match LineEnd(rest[1..])
      case None => None
      case Some(k) => Some(|s| - |rest| + 1 + k)
  }

  /** The replacement from the start of `s`; `lineStart` says whether `^` matches there. */
  function Blank(s: string, lineStart: bool): string
    decreases |s|
  {
    if s == [] then []
    else
      var m := if lineStart then DotLine(s) else None;
      if m.Some? then Blank(s[m.value..], IsTerminator(s[m.value - 1]))
      else [s[0]] + Blank(s[1..], IsTerminator(s[0]))
  }

  /** multiline: the lines of a description that hold only '.' (and whitespace) are emptied. */
  function Multiline(s: string): string {
    Blank(s, true)
  }

  /** A text without '.' is left as it is. */
  lemma {:induction false} BlankWithoutDot(s: string, lineStart: bool)
    requires '.' !in s
    ensures Blank(s, lineStart) == s
    decreases |s|
  {
    if s != [] {
      assert Gap(s).1 == [] || Gap(s).1[0] in s;
      BlankWithoutDot(s[1..], IsTerminator(s[0]));
      assert [s[0]] + s[1..] == s;
    }
  }

  lemma MultilineWithoutDot(s: string)
    requires '.' !in s
    ensures Multiline(s) == s
  {
    BlankWithoutDot(s, true);
  }

  /** The characters of `s` that are neither whitespace nor '.'. */
  function Ink(s: string): string {
    if s == [] then []
    else (if IsSpace(s[0]) || s[0] == '.' then [] else [s[0]]) + Ink(s[1..])
  }

  lemma {:induction false} InkAppend(a: string, b: string)
    ensures Ink(a + b) == Ink(a) + Ink(b)
  {
    if a == [] {
      assert a + b == b;
    } else {
      assert (a + b)[1..] == a[1..] + b;
      InkAppend(a[1..], b);
    }
  }

  lemma {:induction false} InkSplit(s: string, e: nat)
    requires e <= |s|
    ensures Ink(s) == Ink(s[..e]) + Ink(s[e..])
  {
    assert s == s[..e] + s[e..];
    InkAppend(s[..e], s[e..]);
  }

  lemma {:induction false} InkOfSpace(s: string)
    requires AllSpace(s)
    ensures Ink(s) == []
  {
    if s != [] {
      InkOfSpace(s[1..]);
    }
  }

  /** A removed line holds nothing but whitespace and one '.'. */
  lemma DotLineHasNoInk(s: string)
    requires DotLine(s).Some?
    ensures Ink(s[..DotLine(s).value]) == []
  {
    var (w, rest) := Gap(s);
    GapShape(s);
    var t := rest[1..];
    var (w2, u) := Gap(t);
    GapShape(t);
    var k := LineEnd(t).value;
    assert AllSpace(t[..k]) by {
      assert t[..k] == w2[..k];
    }
    assert s[..DotLine(s).value] == w + ['.'] + t[..k] by {
      assert s == w + (['.'] + t);
    }
    InkOfDotted(w, t[..k]);
  }

  lemma {:induction false} InkOfDotted(w: string, x: string)
    requires AllSpace(w) && AllSpace(x)
    ensures Ink(w + ['.'] + x) == []
  {
    InkOfSpace(w);
    InkOfSpace(x);
    InkAppend(w + ['.'], x);
    InkAppend(w, ['.']);
  }

  lemma {:induction false} BlankKeepsInk(s: string, lineStart: bool)
    ensures Ink(Blank(s, lineStart)) == Ink(s)
    decreases |s|
  {
    if s != [] {
      var m := if lineStart then DotLine(s) else None;
      if m.Some? {
        var e := m.value;
        BlankKeepsInk(s[e..], IsTerminator(s[e - 1]));
        DotLineHasNoInk(s);
        InkSplit(s, e);
      } else {
        BlankKeepsInk(s[1..], IsTerminator(s[0]));
        InkAppend([s[0]], Blank(s[1..], IsTerminator(s[0])));
      }
    }
  }

  /** multiline removes only whitespace and '.': every other character stays, in order. */
  lemma {:induction false} MultilineKeepsInk(s: string)
    ensures Ink(Multiline(s)) == Ink(s)
  {
    BlankKeepsInk(s, true);
  }

  lemma DotLineExample()
    ensures DotLine(" .\n b") == Some(2)
  {
    GapOf(" ", ".\n b");
    assert " " + ".\n b" == " .\n b";
    GapOf("\n ", "b");
    assert "\n " + "b" == "\n b";
    assert ".\n b"[1..] == "\n b";
    assert LastTerminator("\n ") == 0;
  }

  lemma BlankLineExample()
    ensures Blank("\n b", false) == "\n b"
  {
    GapOf(" ", "b");
    assert " " + "b" == " b";
    assert Blank(" b", true) == " b";
  }

  /** A description paragraph separator " ." becomes an empty line. */
  lemma DotBlankExample()
    ensures Blank(" .\n b", true) == "\n b"
  {
    assert " .\n b"[2..] == "\n b";
    DotLineExample();
    BlankLineExample();
  }

  lemma MultilineExample()
    ensures Multiline("a\n .\n b") == "a\n\n b"
  {
    assert "a\n .\n b"[1..] == "\n .\n b" && "\n .\n b"[1..] == " .\n b";
    assert "a" + ("\n" + "\n b") == "a\n\n b";
    assert DotLine("a\n .\n b") == None by {
      GapOf([], "a\n .\n b");
      assert [] + "a\n .\n b" == "a\n .\n b";
    }
    DotBlankExample();
    assert Blank("\n .\n b", false) == "\n" + "\n b";
  }

  // ---------------------------------------------------------------------------
  // parseInt(x, 10)
  // ---------------------------------------------------------------------------

  predicate AllDigits(s: string) {
    forall k :: 0 <= k < |s| ==> VersionCmp.IsDigit(s[k])
  }

  /**
   * parseInt(s, 10): leading whitespace, an optional sign, then the longest
   * run of decimal digits; None stands for NaN, the result when there is no digit.
   */
  function ParseInt(s: string): Option<int> {
    var t := TrimLeft(s);
    var signed := t != [] && (t[0] == '-' || t[0] == '+');
    var body := if signed then t[1..] else t;
    var n := VersionCmp.SpanLength(body, true);
    if n == 0 then None
    else if signed && t[0] == '-' then Some(-(VersionCmp.DecimalValue(body[..n]) as int))
    else Some(VersionCmp.DecimalValue(body[..n]))
  }

  lemma {:induction false} DigitSpanOfConcat(d: string, rest: string)
    requires AllDigits(d)
    requires rest == [] || !VersionCmp.IsDigit(rest[0])
    ensures VersionCmp.SpanLength(d + rest, true) == |d|
  {
    if d == [] {
      assert d + rest == rest;
    } else {
      assert (d + rest)[1..] == d[1..] + rest;
      DigitSpanOfConcat(d[1..], rest);
    }
  }

  /** A run of digits, whatever follows it, reads as its decimal value. */
  lemma {:induction false} ParseIntOfDigits(d: string, rest: string)
    requires d != [] && AllDigits(d)
    requires rest == [] || !VersionCmp.IsDigit(rest[0])
    ensures ParseInt(d + rest) == Some(VersionCmp.DecimalValue(d))
  {
    var t := d + rest;
    assert (d + rest)[..|d|] == d;
    assert t[0] == d[0];
    GapOf([], t);
    assert [] + t == t;
    assert TrimLeft(t) == t;
    assert t[0] != '-' && t[0] != '+';
    DigitSpanOfConcat(d, rest);
  }

  /** Text that does not start with a digit after its whitespace and sign is NaN. */
  lemma ParseIntNaN()
    ensures ParseInt("") == None && ParseInt("-") == None && ParseInt("x1") == None
  {
    assert ParseInt("") == None by {
      assert TrimLeft("") == "";
    }
    assert ParseInt("-") == None by {
      GapOf([], "-");
      assert [] + "-" == "-";
      assert TrimLeft("-") == "-";
      assert VersionCmp.SpanLength("-"[1..], true) == 0;
    }
    assert ParseInt("x1") == None by {
      GapOf([], "x1");
      assert [] + "x1" == "x1";
      assert TrimLeft("x1") == "x1";
      assert VersionCmp.SpanLength("x1", true) == 0;
    }
  }

  // ---------------------------------------------------------------------------
  // filespecs: every match of `^\s*(\S+)\s+(\S+)\s+(\S+)\s*$` (multiline mode)
  // ---------------------------------------------------------------------------

  /** One line of a Files or Checksums-* field: hash, size in bytes (None for NaN), file name. */
  datatype FileSpec = FileSpec(hash: string, size: Option<int>, name: string)

  /** The last line terminator in `s[i..j]`, or -1. */
  function LastTerminatorIn(s: string, i: nat, j: nat): (k: int)
    requires i <= j <= |s|
    ensures k == -1 || (i <= k < j && IsTerminator(s[k]))
    decreases j - i
  {
    if i == j then -1
    else if IsTerminator(s[j - 1]) then j - 1
    else LastTerminatorIn(s, i, j - 1)
  }

  /**
   * Where a match of `\s*(\S+)\s+(\S+)\s+(\S+)\s*$` that starts at `p` ends,
   * with the spec it captures. Each `\S+` and each `\s` run takes its whole
   * run, so the tokens can only be where they are; `\s*$` then takes the
   * trailing run whole when it reaches the end of the text, and otherwise
   * stops at the last line terminator in it.
   */
  function SpecLine(s: string, p: nat): (m: Option<(FileSpec, nat)>)
    requires p <= |s|
    ensures m.Some? ==> p < m.value.1 <= |s|
  {
    var a := SkipRun(s, p, true);
    var b := SkipRun(s, a, false);
    var c := SkipRun(s, b, true);
    var d := SkipRun(s, c, false);
    var e := SkipRun(s, d, true);
    var f := SkipRun(s, e, false);
    var g := SkipRun(s, f, true);
    if a == b || b == c || c == d || d == e || e == f then None
    else
      var spec := FileSpec(s[a..b], ParseInt(s[c..d]), s[e..f]);
      if g == |s| then Some((spec, g))
      else
        var k := LastTerminatorIn(s, f, g);
        if k < 0 then None else Some((spec, k as nat))
  }

  /** Whether `^` matches at position `p` of `s`. */
  predicate LineStartAt(s: string, p: nat)
    requires p <= |s|
  {
    p == 0 || IsTerminator(s[p - 1])
  }

  /** The match attempted at position `p` of `s`, if `^` matches there. */
  function MatchAt(s: string, p: nat): (m: Option<(FileSpec, nat)>)
    requires p < |s|
    ensures m.Some? ==> p < m.value.1 <= |s|
  {
    if LineStartAt(s, p) then SpecLine(s, p) else None
  }

  /** Every match from position `p` on: after a match the search goes on where it ended, otherwise one further. */
  function SpecsFrom(s: string, p: nat): seq<FileSpec>
    requires p <= |s|
    decreases |s| - p
  {
    if p == |s| then []
    else
      match MatchAt(s, p)
      case Some((spec, end)) => [spec] + SpecsFrom(s, end)
      case None => SpecsFrom(s, p + 1)
  }

  /** filespecs: the loop over the matches, pushing one spec per match. */
  method FileSpecs(s: string) returns (specs: seq<FileSpec>)
    ensures specs == SpecsFrom(s, 0)
  {
    specs := [];
    var p := 0;
    while p < |s|
      invariant p <= |s|
      invariant specs + SpecsFrom(s, p) == SpecsFrom(s, 0)
      decreases |s| - p
    {
      var m := MatchAt(s, p);
      if m.Some? {
        ghost var tail := SpecsFrom(s, m.value.1);
        assert specs + ([m.value.0] + tail) == (specs + [m.value.0]) + tail;
        specs := specs + [m.value.0];
        p := m.value.1;
      } else {
        p := p + 1;
      }
    }
  }

  /** The tokens a match captures hold no whitespace and are not empty. */
  lemma SpecLineShape(s: string, p: nat)
    requires p <= |s|
    ensures var m := SpecLine(s, p);
      m.Some? ==> var spec := m.value.0;
        spec.hash != [] && NoSpace(spec.hash) && spec.name != [] && NoSpace(spec.name)
  {
    var a := SkipRun(s, p, true);
    var b := SkipRun(s, a, false);
    var c := SkipRun(s, b, true);
    var d := SkipRun(s, c, false);
    var e := SkipRun(s, d, true);
    var f := SkipRun(s, e, false);
    SkipRunHomogeneous(s, a, false);
    SkipRunHomogeneous(s, e, false);
    if SpecLine(s, p).Some? {
      var spec := SpecLine(s, p).value.0;
      assert a < b && c < d && e < f;
      assert spec == FileSpec(s[a..b], ParseInt(s[c..d]), s[e..f]);
      forall k | 0 <= k < |spec.hash| ensures !IsSpace(spec.hash[k]) {
        assert spec.hash[k] == s[a + k];
      }
      forall k | 0 <= k < |spec.name| ensures !IsSpace(spec.name[k]) {
        assert spec.name[k] == s[e + k];
      }
    }
  }

  /** Every spec filespecs finds has a nonempty hash and name without whitespace. */
  lemma {:induction false} SpecsFromShape(s: string, p: nat)
    requires p <= |s|
    ensures forall i :: 0 <= i < |SpecsFrom(s, p)| ==>
      SpecsFrom(s, p)[i].hash != [] && NoSpace(SpecsFrom(s, p)[i].hash)
      && SpecsFrom(s, p)[i].name != [] && NoSpace(SpecsFrom(s, p)[i].name)
    decreases |s| - p
  {
    if p < |s| {
      match MatchAt(s, p)
      case Some((spec, end)) =>
        SpecLineShape(s, p);
        SpecsFromShape(s, end);
      case None =>
        SpecsFromShape(s, p + 1);
    }
  }

  /** `w` sits in `s` at position `i`. */
  predicate At(s: string, i: nat, w: string)
    decreases |w|
  {
    i + |w| <= |s| && (w == [] || (s[i] == w[0] && At(s, i + 1, w[1..])))
  }

  lemma {:induction false} AtIndex(s: string, i: nat, w: string)
    requires At(s, i, w)
    ensures i + |w| <= |s| && forall k :: 0 <= k < |w| ==> s[i + k] == w[k]
    decreases |w|
  {
    if w != [] {
      AtIndex(s, i + 1, w[1..]);
      forall k | 0 < k < |w| ensures s[i + k] == w[k] {
        assert s[i + 1 + (k - 1)] == w[1..][k - 1];
      }
    }
  }

  lemma {:induction false} AtOfIndex(s: string, i: nat, w: string)
    requires i + |w| <= |s| && forall k :: 0 <= k < |w| ==> s[i + k] == w[k]
    ensures At(s, i, w)
    decreases |w|
  {
    if w != [] {
      assert s[i + 0] == w[0];
      forall k | 0 <= k < |w| - 1 ensures s[i + 1 + k] == w[1..][k] {
        assert s[i + (k + 1)] == w[k + 1];
      }
      AtOfIndex(s, i + 1, w[1..]);
    }
  }

  lemma {:induction false} AtSuffix(s: string, p: nat)
    requires p <= |s|
    ensures At(s, p, s[p..])
  {
    AtOfIndex(s, p, s[p..]);
  }

  lemma {:induction false} AtSplit(s: string, i: nat, u: string, v: string)
    requires At(s, i, u + v)
    ensures At(s, i, u) && At(s, i + |u|, v)
  {
    AtIndex(s, i, u + v);
    forall k | 0 <= k < |u| ensures s[i + k] == u[k] {
      assert (u + v)[k] == u[k];
    }
    forall k | 0 <= k < |v| ensures s[i + |u| + k] == v[k] {
      assert s[i + (|u| + k)] == (u + v)[|u| + k];
    }
    AtOfIndex(s, i, u);
    AtOfIndex(s, i + |u|, v);
  }

  lemma {:induction false} AtSlice(s: string, i: nat, w: string)
    requires At(s, i, w)
    ensures s[i..i + |w|] == w
  {
    AtIndex(s, i, w);
    forall k | 0 <= k < |w| ensures s[i..i + |w|][k] == w[k] {
      assert s[i + k] == w[k];
    }
  }

  lemma {:induction false} WordAt(s: string, i: nat, w: string)
    requires At(s, i, w) && NoSpace(w)
    requires i + |w| == |s| || IsSpace(s[i + |w|])
    ensures SkipRun(s, i, false) == i + |w|
  {
    AtIndex(s, i, w);
    forall k | i <= k < i + |w| ensures !IsSpace(s[k]) {
      assert s[i + (k - i)] == w[k - i];
    }
    SkipRunTo(s, i, i + |w|, false);
  }

  lemma {:induction false} SpaceAt(s: string, i: nat, w: string)
    requires At(s, i, w) && AllSpace(w)
    requires i + |w| == |s| || !IsSpace(s[i + |w|])
    ensures SkipRun(s, i, true) == i + |w|
  {
    AtIndex(s, i, w);
    forall k | i <= k < i + |w| ensures IsSpace(s[k]) {
      assert s[i + (k - i)] == w[k - i];
    }
    SkipRunTo(s, i, i + |w|, true);
  }

  /** One line of a listing as the Release and .dsc files write it: hash, size in decimal digits, file name. */
  datatype Entry = Entry(hash: string, size: string, name: string)

  predicate GoodEntry(t: Entry) {
    t.hash != [] && NoSpace(t.hash) && t.size != [] && AllDigits(t.size) && t.name != [] && NoSpace(t.name)
  }

  function EntryLine(t: Entry): string {
    t.hash + (" " + (t.size + (" " + t.name)))
  }

  /**
   * The lines, as the trimmed value of a multi-line field holds them: a line
   * break and a space before each line after the first.
   */
  function Listing(ts: seq<Entry>): string {
    if ts == [] then []
    else if |ts| == 1 then EntryLine(ts[0])
    else EntryLine(ts[0]) + ("\n" + (" " + Listing(ts[1..])))
  }

  /** The specs the lines stand for. */
  function Parsed(ts: seq<Entry>): (specs: seq<FileSpec>)
    ensures |specs| == |ts|
  {
    if ts == [] then [] else [SpecOf(ts[0])] + Parsed(ts[1..])
  }

  /**
   * What may follow a listing line at `f`: the end of the text, or a line
   * break and a space before the next line.
   */
  predicate LineBreakAt(s: string, f: nat) {
    f == |s| || (f + 2 < |s| && s[f] == '\n' && s[f + 1] == ' ' && !IsSpace(s[f + 2]))
  }

  /** After a listing line the whitespace run ends the text, or `$` stops inside it at the line break. */
  lemma {:induction false} EntryEnd(s: string, f: nat)
    requires LineBreakAt(s, f)
    ensures var g := SkipRun(s, f, true);
      (if g == |s| then g else LastTerminatorIn(s, f, g)) == f
  {
    if f < |s| {
      AtOfIndex(s, f, "\n ");
      SpaceAt(s, f, "\n ");
      assert LastTerminatorIn(s, f, f + 1) == f;
    }
  }

  /** SpecLine read off the runs it finds. */
  lemma {:induction false} SpecLineFromRuns(s: string, p: nat, a: nat, b: nat, c: nat, d: nat, e: nat, f: nat, spec: FileSpec)
    requires p <= a <= b <= c <= d <= e <= f <= |s|
    requires SkipRun(s, p, true) == a && SkipRun(s, a, false) == b && SkipRun(s, b, true) == c
    requires SkipRun(s, c, false) == d && SkipRun(s, d, true) == e && SkipRun(s, e, false) == f
    requires a < b && b < c && c < d && d < e && e < f
    requires var g := SkipRun(s, f, true); (if g == |s| then g else LastTerminatorIn(s, f, g)) == f
    requires spec == FileSpec(s[a..b], ParseInt(s[c..d]), s[e..f])
    ensures SpecLine(s, p) == Some((spec, f))
  {
  }

  lemma {:induction false} ParseIntOfAllDigits(d: string)
    requires d != [] && AllDigits(d)
    ensures ParseInt(d) == Some(VersionCmp.DecimalValue(d))
  {
    ParseIntOfDigits(d, []);
    assert d + [] == d;
  }

  /**
   * A listing line laid out in `s`: whitespace `x` at `p`, then the hash at
   * `a`, a space at `b`, the size, a space at `d`, the name, and at `f` the
   * end of the text or the break before the next line.
   */
  predicate LaidOut(s: string, p: nat, x: string, t: Entry, a: nat, b: nat, d: nat, f: nat) {
    a == p + |x| && b == a + |t.hash| && d == b + 1 + |t.size| && f == d + 1 + |t.name| && f <= |s|
    && At(s, p, x) && At(s, a, t.hash) && s[b] == ' ' && At(s, b + 1, t.size) && s[d] == ' '
    && At(s, d + 1, t.name) && LineBreakAt(s, f)
  }

  lemma {:induction false} HeadRuns(s: string, p: nat, x: string, t: Entry, a: nat, b: nat, d: nat, f: nat)
    requires AllSpace(x) && GoodEntry(t) && LaidOut(s, p, x, t, a, b, d, f)
    ensures SkipRun(s, p, true) == a && SkipRun(s, a, false) == b && SkipRun(s, b, true) == b + 1
  {
    SpaceAt(s, p, x);
    WordAt(s, a, t.hash);
    AtOfIndex(s, b, " ");
    SpaceAt(s, b, " ");
  }

  lemma {:induction false} TailRuns(s: string, p: nat, x: string, t: Entry, a: nat, b: nat, d: nat, f: nat)
    requires GoodEntry(t) && LaidOut(s, p, x, t, a, b, d, f)
    ensures SkipRun(s, b + 1, false) == d && SkipRun(s, d, true) == d + 1 && SkipRun(s, d + 1, false) == f
  {
    assert NoSpace(t.size);
    WordAt(s, b + 1, t.size);
    AtOfIndex(s, d, " ");
    SpaceAt(s, d, " ");
    WordAt(s, d + 1, t.name);
  }

  lemma FieldsOfEntry(s: string, p: nat, x: string, t: Entry, a: nat, b: nat, d: nat, f: nat)
    requires GoodEntry(t) && LaidOut(s, p, x, t, a, b, d, f)
    ensures FileSpec(s[a..b], ParseInt(s[b + 1..d]), s[d + 1..f])
      == FileSpec(t.hash, Some(VersionCmp.DecimalValue(t.size)), t.name)
  {
    AtSlice(s, a, t.hash);
    AtSlice(s, b + 1, t.size);
    AtSlice(s, d + 1, t.name);
    assert s[a..b] == t.hash && s[b + 1..d] == t.size && s[d + 1..f] == t.name;
    ParseIntOfAllDigits(t.size);
  }

  /** The match at a listing line captures its three fields and ends where the line ends. */
  lemma SpecLineOfEntry(s: string, p: nat, x: string, t: Entry, a: nat, b: nat, d: nat, f: nat)
    requires AllSpace(x) && GoodEntry(t) && LaidOut(s, p, x, t, a, b, d, f)
    ensures SpecLine(s, p) == Some((FileSpec(t.hash, Some(VersionCmp.DecimalValue(t.size)), t.name), f))
  {
    HeadRuns(s, p, x, t, a, b, d, f);
    TailRuns(s, p, x, t, a, b, d, f);
    EntryEnd(s, f);
    FieldsOfEntry(s, p, x, t, a, b, d, f);
    SpecLineFromRuns(s, p, a, b, b + 1, d, d + 1, f, FileSpec(t.hash, Some(VersionCmp.DecimalValue(t.size)), t.name));
  }

  lemma {:induction false} ListingHead(ts: seq<Entry>)
    requires ts != [] && GoodEntry(ts[0])
    ensures Listing(ts) != [] && Listing(ts)[0] == ts[0].hash[0]
  {
  }

  /** The parts of the first line of whitespace `x` and a listing, where they run to the end of `s`. */
  lemma {:induction false} EntryLayout(s: string, p: nat, x: string, t: Entry, y: string)
    requires GoodEntry(t)
    requires At(s, p, x + (EntryLine(t) + y)) && p + |x| + |EntryLine(t)| + |y| == |s|
    requires y == [] || (|y| > 2 && y[0] == '\n' && y[1] == ' ' && !IsSpace(y[2]))
    ensures var a := p + |x|;
      var b := a + |t.hash|;
      var d := b + 1 + |t.size|;
      LaidOut(s, p, x, t, a, b, d, d + 1 + |t.name|)
      && At(s, d + 1 + |t.name|, y)
  {
    var a := p + |x|;
    var b := a + |t.hash|;
    var c := b + 1;
    var d := c + |t.size|;
    var f := d + 1 + |t.name|;
    AtSplit(s, p, x, EntryLine(t) + y);
    AtSplit(s, a, EntryLine(t), y);
    AtSplit(s, a, t.hash, " " + (t.size + (" " + t.name)));
    AtSplit(s, b, " ", t.size + (" " + t.name));
    AtSplit(s, c, t.size, " " + t.name);
    AtSplit(s, d, " ", t.name);
    if y != [] {
      AtIndex(s, f, y);
      assert s[f + 0] == y[0] && s[f + 1] == y[1] && s[f + 2] == y[2];
    }
  }

  lemma {:induction false} SpecsFromMatch(s: string, p: nat, spec: FileSpec, q: nat)
    requires p < |s| && LineStartAt(s, p) && SpecLine(s, p) == Some((spec, q))
    ensures q <= |s| && SpecsFrom(s, p) == [spec] + SpecsFrom(s, q)
  {
  }

  lemma SpecsFromSkip(s: string, p: nat)
    requires p < |s| && !LineStartAt(s, p)
    ensures SpecsFrom(s, p) == SpecsFrom(s, p + 1)
  {
  }

  /** Between two lines of a listing: the end of one is no line start, and the next starts after the line break. */
  lemma NextLine(s: string, t: Entry, rest: seq<Entry>, d: nat, f: nat)
    requires GoodEntry(t) && d + 1 + |t.name| == f
    requires At(s, d + 1, t.name) && At(s, f, "\n" + (" " + Listing(rest)))
    ensures f < |s| && !LineStartAt(s, f) && LineStartAt(s, f + 1) && At(s, f + 1, " " + Listing(rest))
  {
    AtIndex(s, d + 1, t.name);
    assert s[f - 1] == t.name[|t.name| - 1] by {
      assert s[d + 1 + (|t.name| - 1)] == t.name[|t.name| - 1];
    }
    AtSplit(s, f, "\n", " " + Listing(rest));
  }

  function SpecOf(t: Entry): FileSpec {
    FileSpec(t.hash, Some(VersionCmp.DecimalValue(t.size)), t.name)
  }

  /** The last line of a listing gives its spec and nothing follows. */
  lemma {:induction false} LastLineSpecs(s: string, p: nat, sp: string, ts: seq<Entry>)
    requires AllSpace(sp) && |ts| == 1 && GoodEntry(ts[0])
    requires At(s, p, sp + Listing(ts)) && p + |sp| + |Listing(ts)| == |s|
    requires LineStartAt(s, p)
    ensures SpecsFrom(s, p) == [SpecOf(ts[0])]
  {
    var t := ts[0];
    assert sp + Listing(ts) == sp + (EntryLine(t) + []);
    var a := p + |sp|;
    var b := a + |t.hash|;
    var d := b + 1 + |t.size|;
    var f := d + 1 + |t.name|;
    EntryLayout(s, p, sp, t, []);
    SpecLineOfEntry(s, p, sp, t, a, b, d, f);
    SpecsFromMatch(s, p, SpecOf(t), f);
  }

  /** A line of a listing with more lines after it gives its spec, and the search goes on at the next line. */
  lemma ConsLineSpecs(s: string, p: nat, sp: string, ts: seq<Entry>) returns (q: nat)
    requires AllSpace(sp) && |ts| > 1 && GoodEntry(ts[0]) && GoodEntry(ts[1])
    requires At(s, p, sp + Listing(ts)) && p + |sp| + |Listing(ts)| == |s|
    requires LineStartAt(s, p)
    ensures q <= |s| && SpecsFrom(s, p) == [SpecOf(ts[0])] + SpecsFrom(s, q)
    ensures LineStartAt(s, q) && At(s, q, " " + Listing(ts[1..])) && q + 1 + |Listing(ts[1..])| == |s|
  {
    var t := ts[0];
    var y := "\n" + (" " + Listing(ts[1..]));
    assert Listing(ts) == EntryLine(t) + y;
    ListingHead(ts[1..]);
    assert y[2] == Listing(ts[1..])[0];
    var a := p + |sp|;
    var b := a + |t.hash|;
    var d := b + 1 + |t.size|;
    var f := d + 1 + |t.name|;
    EntryLayout(s, p, sp, t, y);
    SpecLineOfEntry(s, p, sp, t, a, b, d, f);
    SpecsFromMatch(s, p, SpecOf(t), f);
    NextLine(s, t, ts[1..], d, f);
    SpecsFromSkip(s, f);
    q := f + 1;
  }

  /** The specs found from a line start on, where whitespace `sp` and then a listing run to the end of the text. */
  lemma {:induction false} SpecsFromListing(s: string, p: nat, sp: string, ts: seq<Entry>)
    requires AllSpace(sp) && ts != [] && forall i :: 0 <= i < |ts| ==> GoodEntry(ts[i])
    requires At(s, p, sp + Listing(ts)) && p + |sp| + |Listing(ts)| == |s|
    requires LineStartAt(s, p)
    ensures SpecsFrom(s, p) == Parsed(ts)
    decreases |ts|
  {
    if |ts| == 1 {
      LastLineSpecs(s, p, sp, ts);
    } else {
      var q := ConsLineSpecs(s, p, sp, ts);
      SpecsFromListing(s, q, " ", ts[1..]);
    }
  }

  /** filespecs reads a listing back as the specs its lines stand for. */
  lemma {:induction false} SpecsOfListing(ts: seq<Entry>)
    requires forall i :: 0 <= i < |ts| ==> GoodEntry(ts[i])
    ensures SpecsFrom(Listing(ts), 0) == Parsed(ts)
  {
    if ts != [] {
      var s := Listing(ts);
      AtSuffix(s, 0);
      assert [] + s == s[0..];
      SpecsFromListing(s, 0, [], ts);
    }
  }
}
