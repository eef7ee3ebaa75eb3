/**
 * The contact parsers of src/aptreader.ts: `toContactInfo` reads one
 * "Name <address>" entry of a Maintainer field, and `multiContactInfo` splits
 * an Uploaders field at the commas outside double quotes and reads each piece.
 * The regular expressions are written out as the scans they perform; `.`
 * stops at line terminators and `\s` is JavaScript's whitespace class.
 */
module Contacts {
  import opened Wrappers
  import opened Text

  datatype Contact = Contact(name: string, email: string)

  // ---------------------------------------------------------------------------
  // name.replace(/"|^\s+|\s+$/g, '')
  // ---------------------------------------------------------------------------

  /**
   * The replacement from position `k` on: a double quote is removed wherever
   * it stands, the whitespace run at the very start is removed, and so is a
   * whitespace run that reaches the end; everything else is kept.
   */
  function StripFrom(s: string, k: nat): string
    requires k <= |s|
    decreases |s| - k
  {
    if k == |s| then []
    else if s[k] == '"' then StripFrom(s, k + 1)
    else if IsSpace(s[k]) && (k == 0 || SkipRun(s, k, true) == |s|) then
      var j := SkipRun(s, k, true);
      assert j > k;
      StripFrom(s, j)
    else [s[k]] + StripFrom(s, k + 1)
  }

  function StripName(s: string): string {
    StripFrom(s, 0)
  }

  /** No double quote survives. */
  lemma {:induction false} StripFromUnquoted(s: string, k: nat)
    requires k <= |s|
    ensures '"' !in StripFrom(s, k)
    decreases |s| - k
  {
    if k < |s| {
      if s[k] == '"' {
        StripFromUnquoted(s, k + 1);
      } else if IsSpace(s[k]) && (k == 0 || SkipRun(s, k, true) == |s|) {
        StripFromUnquoted(s, SkipRun(s, k, true));
      } else {
        StripFromUnquoted(s, k + 1);
      }
    }
  }

  lemma StripNameUnquoted(s: string)
    ensures '"' !in StripName(s)
  {
    StripFromUnquoted(s, 0);
  }

  lemma {:induction false} TrimRightCons(c: char, r: string)
    requires !(IsSpace(c) && AllSpace(r))
    ensures TrimRight([c] + r) == [c] + TrimRight(r)
    decreases |r|
  {
    if r == [] {
      assert [c] + r == [c];
      assert [c][..0] == [];
    } else if IsSpace(r[|r| - 1]) {
      assert ([c] + r)[..|[c] + r| - 1] == [c] + r[..|r| - 1];
      if IsSpace(c) {
        var k :| 0 <= k < |r| && !IsSpace(r[k]);
        assert r[..|r| - 1][k] == r[k];
      }
      TrimRightCons(c, r[..|r| - 1]);
    }
  }

  lemma {:induction false} TrimRightAllSpace(r: string)
    requires AllSpace(r)
    ensures TrimRight(r) == []
    decreases |r|
  {
    if r != [] {
      var r' := r[..|r| - 1];
      assert AllSpace(r') by {
        forall k | 0 <= k < |r'| ensures IsSpace(r'[k]) {
          assert r'[k] == r[k];
        }
      }
      TrimRightAllSpace(r');
    }
  }

  /** Past the start, without double quotes, only the whitespace at the end goes. */
  lemma {:induction false} StripFromIsTrimRight(s: string, k: nat)
    requires k <= |s| && '"' !in s
    requires k > 0 || s == [] || !IsSpace(s[0])
    ensures StripFrom(s, k) == TrimRight(s[k..])
    decreases |s| - k
  {
    if k < |s| {
      assert s[k] != '"';
      var j := SkipRun(s, k, true);
      SkipRunHomogeneous(s, k, true);
      if IsSpace(s[k]) && j == |s| {
        assert AllSpace(s[k..]) by {
          forall i | 0 <= i < |s| - k ensures IsSpace(s[k..][i]) {
            assert s[k..][i] == s[k + i];
          }
        }
        TrimRightAllSpace(s[k..]);
        StripFromIsTrimRight(s, j);
      } else {
        StripFromIsTrimRight(s, k + 1);
        assert s[k..] == [s[k]] + s[k + 1..];
        if IsSpace(s[k]) {
          assert j > k && j < |s| && !IsSpace(s[k + 1..][j - k - 1]);
        }
        TrimRightCons(s[k], s[k + 1..]);
      }
    }
  }

  /** Without double quotes the replacement is String.prototype.trim. */
  lemma StripNameIsTrim(s: string)
    requires '"' !in s
    ensures StripName(s) == Trim(s)
  {
    var i := SkipRun(s, 0, true);
    SkipRunIsSpan(s, 0, true);
    assert s[0..] == s;
    StripFromIsTrimRight(s, i);
  }

  // ---------------------------------------------------------------------------
  // s.match(/(.*)?<(.*?)>/)
  // ---------------------------------------------------------------------------

  /** The end of the line holding position `i`: the first line terminator at or after `i`, or |s|. */
  function LineEndFrom(s: string, i: nat): (e: nat)
    requires i <= |s|
    ensures i <= e <= |s|
    ensures e < |s| ==> IsTerminator(s[e])
    decreases |s| - i
  {
    if i == |s| || IsTerminator(s[i]) then i else LineEndFrom(s, i + 1)
  }

  /** The first index in [i, e) that holds `c`. */
  function FindIn(s: string, c: char, i: nat, e: nat): (k: Option<nat>)
    requires i <= e <= |s|
    ensures k.Some? ==> i <= k.value < e && s[k.value] == c
    decreases e - i
  {
    if i == e then None
    else if s[i] == c then Some(i)
    else FindIn(s, c, i + 1, e)
  }

  /**
   * Within the line [p, e), the last '<' before `k` that a '>' follows on the
   * same line, paired with the first such '>': greedy `(.*)` backtracking onto
   * the lazy `(.*?)`.
   */
  function LastAngleBefore(s: string, p: nat, k: nat, e: nat): (m: Option<(nat, nat)>)
    requires p <= k <= e <= |s|
    ensures m.Some? ==> p <= m.value.0 < m.value.1 < e
    ensures m.Some? ==> s[m.value.0] == '<' && s[m.value.1] == '>'
    decreases k - p
  {
    if k == p then None
    else if s[k - 1] == '<' && FindIn(s, '>', k, e).Some? then Some((k - 1, FindIn(s, '>', k, e).value))
    else LastAngleBefore(s, p, k - 1, e)
  }

  /**
   * The first match, as (start, '<', '>'): a search from each start position
   * succeeds exactly at the start of the first line holding a '<' with a '>'
   * after it, since `.` does not cross a line terminator.
   */
  function AngleMatch(s: string, p: nat): (m: Option<(nat, nat, nat)>)
    requires p <= |s|
    ensures m.Some? ==> p <= m.value.0 <= m.value.1 < m.value.2 < |s|
    ensures m.Some? ==> s[m.value.1] == '<' && s[m.value.2] == '>'
    decreases |s| - p
  {
    var e := LineEndFrom(s, p);
    match LastAngleBefore(s, p, e, e)
    case Some((q, g)) => Some((p, q, g))
    case None => if e == |s| then None else AngleMatch(s, e + 1)
  }

  /** /^\s*\S+@\S+\s*$/: one token, with an '@' that is neither its first nor its last character. */
  predicate BareAddress(s: string) {
    var t := Trim(s);
    NoSpace(t) && exists k :: 0 < k < |t| - 1 && t[k] == '@'
  }

  /**
   * toContactInfo. When the optional name group would match only the empty
   * string, ECMAScript skips it and leaves it undefined, and the `replace` on
   * it throws a TypeError: that outcome is None.
   */
  function ToContactInfo(s: string): Option<Contact> {
    match AngleMatch(s, 0)
    case Some((p, q, g)) =>
      if q == p then None else Some(Contact(StripName(s[p..q]), Trim(s[q + 1..g])))
    case None =>
      if BareAddress(s) then Some(Contact([], Trim(s))) else Some(Contact(StripName(s), []))
  }

  // --- facts about the scans

  lemma {:induction false} LineEndOfPlain(s: string, i: nat)
    requires i <= |s|
    requires forall k :: i <= k < |s| ==> !IsTerminator(s[k])
    ensures LineEndFrom(s, i) == |s|
    decreases |s| - i
  {
    if i < |s| {
      LineEndOfPlain(s, i + 1);
    }
  }

  lemma {:induction false} FindInFirst(s: string, c: char, i: nat, j: nat, e: nat)
    requires i <= j < e <= |s|
    requires forall k :: i <= k < j ==> s[k] != c
    requires s[j] == c
    ensures FindIn(s, c, i, e) == Some(j)
    decreases j - i
  {
    if i < j {
      FindInFirst(s, c, i + 1, j, e);
    }
  }

  /** Positions without a '<' are passed over by the backward scan. */
  lemma {:induction false} LastAngleSkip(s: string, p: nat, k0: nat, k: nat, e: nat)
    requires p <= k0 <= k <= e <= |s|
    requires forall j :: k0 <= j < k ==> s[j] != '<'
    ensures LastAngleBefore(s, p, k, e) == LastAngleBefore(s, p, k0, e)
    decreases k - k0
  {
    if k0 < k {
      LastAngleSkip(s, p, k0, k - 1, e);
    }
  }

  /** Without a '<' there is no match. */
  lemma {:induction false} AngleMatchWithoutOpen(s: string, p: nat)
    requires p <= |s|
    requires '<' !in s
    ensures AngleMatch(s, p) == None
    decreases |s| - p
  {
    var e := LineEndFrom(s, p);
    LastAngleSkip(s, p, p, e, e);
    if e < |s| {
      AngleMatchWithoutOpen(s, e + 1);
    }
  }

  // --- the three forms of a contact

  /** A name that survives the round trip: no quote, angle bracket, comma or line break, and trimmed. */
  predicate GoodName(n: string) {
    n != [] && Trimmed(n)
    && forall k :: 0 <= k < |n| ==> n[k] != '"' && n[k] != '<' && n[k] != ',' && !IsTerminator(n[k])
  }

  /** An address that survives the round trip: no quote, angle bracket, comma or line break, and trimmed. */
  predicate GoodEmail(m: string) {
    Trimmed(m)
    && forall k :: 0 <= k < |m| ==> m[k] != '"' && m[k] != '<' && m[k] != '>' && m[k] != ',' && !IsTerminator(m[k])
  }

  lemma GoodEmailHasNoAngle(m: string)
    requires GoodEmail(m)
    ensures '<' !in m && '>' !in m
  {
  }

  /** The "Name <address>" form of a contact. */
  function Format(c: Contact): string {
    c.name + " <" + c.email + ">"
  }

  /** No line terminator: all of it is one line. */
  predicate Plain(s: string) {
    forall k :: 0 <= k < |s| ==> !IsTerminator(s[k])
  }

  lemma BracketSlices(u: string, v: string)
    ensures var s := u + "<" + v + ">";
      |s| == |u| + |v| + 2 && s[|u|] == '<' && s[|s| - 1] == '>'
      && s[..|u|] == u && s[|u| + 1..|s| - 1] == v
  {
    var s := u + "<" + v + ">";
    assert s == u + ("<" + v + ">");
    assert s[..|u|] == u;
  }

  /** Each position of `u<v>`, read off its part. */
  lemma BracketAt(u: string, v: string, k: nat)
    requires k < |u| + |v| + 2
    ensures var s := u + "<" + v + ">";
      s[k] == if k < |u| then u[k] else if k == |u| then '<' else if k < |u| + |v| + 1 then v[k - |u| - 1] else '>'
  {
  }

  /** `u<v>` is one line. */
  lemma LineEndOfBracket(u: string, v: string)
    requires Plain(u) && Plain(v)
    ensures var s := u + "<" + v + ">"; LineEndFrom(s, 0) == |s|
  {
    var s := u + "<" + v + ">";
    forall k | 0 <= k < |s| ensures !IsTerminator(s[k]) {
      BracketAt(u, v, k);
    }
    LineEndOfPlain(s, 0);
  }

  /** The backward scan over `u<v>` stops at the '<' after `u`, paired with the final '>'. */
  lemma LastAngleOfBracket(u: string, v: string)
    requires '<' !in v && '>' !in v
    ensures var s := u + "<" + v + ">";
      LastAngleBefore(s, 0, |s|, |s|) == Some((|u|, |u| + |v| + 1))
  {
    var s := u + "<" + v + ">";
    var q, g := |u|, |u| + |v| + 1;
    forall k | q < k < g ensures s[k] != '<' && s[k] != '>' {
      BracketAt(u, v, k);
    }
    BracketAt(u, v, q);
    BracketAt(u, v, g);
    LastAngleSkip(s, 0, q + 1, |s|, |s|);
    FindInFirst(s, '>', q + 1, g, |s|);
    assert LastAngleBefore(s, 0, q + 1, |s|) == Some((q, g));
  }

  /** In `u<v>` with `v` free of angle brackets, the match takes `u` as the name and `v` as the address. */
  lemma {:induction false} AngleMatchOfBracket(u: string, v: string)
    requires Plain(u) && Plain(v)
    requires '<' !in v && '>' !in v
    ensures AngleMatch(u + "<" + v + ">", 0) == Some((0, |u|, |u| + |v| + 1))
  {
    var s := u + "<" + v + ">";
    LineEndOfBracket(u, v);
    LastAngleOfBracket(u, v);
    AngleMatchOnOneLine(s, |u|, |u| + |v| + 1);
  }

  /** On a text that is a single line, the match is the one the backward scan finds from its end. */
  lemma {:induction false} AngleMatchOnOneLine(s: string, q: nat, g: nat)
    requires LineEndFrom(s, 0) == |s|
    requires LastAngleBefore(s, 0, |s|, |s|) == Some((q, g))
    ensures AngleMatch(s, 0) == Some((0, q, g))
  {
  }

  lemma FormatParts(x: string, c: Contact)
    ensures x + Format(c) == (x + c.name + " ") + "<" + c.email + ">"
  {
  }

  /** After optional blanks, "Name <address>" reads back as that contact. */
  lemma ToContactInfoOfFormat(x: string, c: Contact)
    requires AllSpace(x) && Plain(x)
    requires GoodName(c.name) && GoodEmail(c.email)
    ensures ToContactInfo(x + Format(c)) == Some(c)
  {
    var u := x + c.name + " ";
    FormatParts(x, c);
    NamePartIsPlain(x, c.name);
    GoodEmailHasNoAngle(c.email);
    ToContactInfoOfBracket(u, c.email);
    StripNameIsTrim(u);
    TrimOfPadded(x, c.name, " ");
    assert [] + c.email + [] == c.email;
    TrimOfPadded([], c.email, []);
  }

  /** Blanks, a good name and a space make one line without double quotes. */
  lemma NamePartIsPlain(x: string, n: string)
    requires AllSpace(x) && Plain(x) && GoodName(n)
    ensures Plain(x + n + " ") && '"' !in x + n + " "
  {
    var u := x + n + " ";
    forall k | 0 <= k < |u| ensures !IsTerminator(u[k]) && u[k] != '"' {
      if k < |x| {
        assert u[k] == x[k];
      } else if k < |x| + |n| {
        assert u[k] == n[k - |x|];
      }
    }
  }

  /** In `u<v>` with a nonempty `u`, the name is `u` with the replacement applied and the address is `v` trimmed. */
  lemma ToContactInfoOfBracket(u: string, v: string)
    requires Plain(u) && Plain(v) && u != []
    requires '<' !in v && '>' !in v
    ensures ToContactInfo(u + "<" + v + ">") == Some(Contact(StripName(u), Trim(v)))
  {
    var s := u + "<" + v + ">";
    AngleMatchOfBracket(u, v);
    BracketSlices(u, v);
    assert s[0..|u|] == u;
  }

  /** A lone address between blanks reads as an address without a name. */
  lemma ToContactInfoOfAddress(x: string, t: string, y: string, k: nat)
    requires AllSpace(x) && AllSpace(y) && NoSpace(t)
    requires '<' !in t
    requires 0 < k < |t| - 1 && t[k] == '@'
    ensures ToContactInfo(x + t + y) == Some(Contact([], t))
  {
    var s := x + t + y;
    assert '<' !in s by {
      forall i | 0 <= i < |s| ensures s[i] != '<' {
        if i < |x| {
          assert s[i] == x[i];
        } else if i < |x| + |t| {
          assert s[i] == t[i - |x|];
        } else {
          assert s[i] == y[i - |x| - |t|];
        }
      }
    }
    AngleMatchWithoutOpen(s, 0);
    TrimOfPadded(x, t, y);
  }

  /** Text with neither '<' nor '@' nor a double quote reads as a bare name, trimmed. */
  lemma ToContactInfoOfName(s: string)
    requires '<' !in s && '@' !in s && '"' !in s
    ensures ToContactInfo(s) == Some(Contact(Trim(s), []))
  {
    AngleMatchWithoutOpen(s, 0);
    TrimIsInfix(s);
    var t := Trim(s);
    var i := Span(s, true);
    forall k | 0 <= k < |t| ensures t[k] != '@' {
      assert t[k] == s[i + k];
    }
    StripNameIsTrim(s);
  }

  /**
   * An entry that opens with '<' has no name for the optional group to take,
   * so the source's `replace` on the undefined name throws.
   */
  lemma ToContactInfoWithoutName(v: string)
    requires Plain(v)
    requires '<' !in v && '>' !in v
    ensures ToContactInfo("<" + v + ">") == None
  {
    AngleMatchOfBracket([], v);
    assert [] + "<" + v + ">" == "<" + v + ">";
  }

  /** The name runs up to the last '<' that has a '>' after it; earlier brackets stay in the name. */
  lemma ToContactInfoTakesLastBracket()
    ensures ToContactInfo("A <b> <c>") == Some(Contact("A <b>", "c"))
  {
    var s := "A <b> <c>";
    assert s[0..6] == "A <b> " && s[7..8] == "c";
    assert [] + "A <b>" + " " == "A <b> " && [] + "c" + [] == "c";
    LastBracketMatch();
    assert '"' !in s[0..6];
    StripNameIsTrim(s[0..6]);
    TrimOfPadded([], "A <b>", " ");
    TrimOfPadded([], "c", []);
  }

  lemma LastBracketMatch()
    ensures AngleMatch("A <b> <c>", 0) == Some((0, 6, 8))
  {
    var s := "A <b> <c>";
    LineEndOfPlain(s, 0);
    FindInFirst(s, '>', 7, 8, 9);
    assert LastAngleBefore(s, 0, 9, 9) == Some((6, 8));
  }

  // ---------------------------------------------------------------------------
  // multiContactInfo
  // ---------------------------------------------------------------------------

  /** Whether an odd number of double quotes stands before position `j`. */
  function Quoted(s: string, j: nat): bool
    requires j <= |s|
  {
    if j == 0 then false else Quoted(s, j - 1) != (s[j - 1] == '"')
  }

  /** The first comma at or after `j` that no open double quote protects. */
  function CommaFrom(s: string, j: nat): (k: Option<nat>)
    requires j <= |s|
    ensures k.Some? ==> j <= k.value < |s| && s[k.value] == ',' && !Quoted(s, k.value)
    decreases |s| - j
  {
    if j == |s| then None
    else if s[j] == ',' && !Quoted(s, j) then Some(j)
    else CommaFrom(s, j + 1)
  }

  /** The field cut at every comma outside double quotes. */
  function SplitQuoted(s: string): (pieces: seq<string>)
    ensures |pieces| >= 1
    decreases |s|
  {
    match CommaFrom(s, 0)
    case None => [s]
    case Some(k) => [s[..k]] + SplitQuoted(s[k + 1..])
  }

  /** The pieces that are read: a last piece made only of whitespace (but not an empty one) is dropped. */
  function Kept(pieces: seq<string>): seq<string> {
    if pieces != [] && pieces[|pieces| - 1] != [] && AllSpace(pieces[|pieces| - 1])
    then pieces[..|pieces| - 1] else pieces
  }

  /** Every piece read as a contact. */
  function ReadAll(pieces: seq<string>): (rs: seq<Option<Contact>>)
    ensures |rs| == |pieces|
  {
    seq(|pieces|, i requires 0 <= i < |pieces| => ToContactInfo(pieces[i]))
  }

  /** All the values, or None as soon as one is missing: one throwing `toContactInfo` makes the whole call throw. */
  function Collect<T>(rs: seq<Option<T>>): (r: Option<seq<T>>)
    ensures r.Some? ==> |r.value| == |rs|
  {
    if rs == [] then Some([])
    else match Collect(rs[..|rs| - 1])
      case None => None
      case Some(vs) => if rs[|rs| - 1].None? then None else Some(vs + [rs[|rs| - 1].value])
  }

  /** multiContactInfo, as a function of the field. */
  function MultiContactInfo(x: string): Option<seq<Contact>> {
    Collect(ReadAll(Kept(SplitQuoted(x))))
  }

  /**
   * The `replace` of `^\s*,\s*` by nothing: a comma after leading whitespace
   * goes, with the whitespace around it.
   */
  function LeadingCommaStripped(t: string): string {
    var a := SkipRun(t, 0, true);
    if a < |t| && t[a] == ',' then t[SkipRun(t, a + 1, true)..] else t
  }

  // --- lemmas about the split

  lemma {:induction false} QuotedOfPrefix(s: string, m: nat, j: nat)
    requires j <= m <= |s|
    ensures Quoted(s[..m], j) == Quoted(s, j)
  {
    if j > 0 {
      QuotedOfPrefix(s, m, j - 1);
      assert s[..m][j - 1] == s[j - 1];
    }
  }

  lemma {:induction false} QuotedOfSuffix(s: string, i: nat, j: nat)
    requires i <= |s| && j <= |s| - i
    requires !Quoted(s, i)
    ensures Quoted(s[i..], j) == Quoted(s, i + j)
  {
    if j > 0 {
      QuotedOfSuffix(s, i, j - 1);
      assert s[i..][j - 1] == s[i + j - 1];
    }
  }

  lemma {:induction false} QuotedWithoutQuotes(s: string, j: nat)
    requires j <= |s|
    requires forall k :: 0 <= k < j ==> s[k] != '"'
    ensures !Quoted(s, j)
  {
    if j > 0 {
      QuotedWithoutQuotes(s, j - 1);
    }
  }

  /** CommaFrom finds the first unprotected comma: none stands between `j` and it. */
  lemma {:induction false} CommaFromIsFirst(s: string, j: nat, k: nat)
    requires j <= k < |s|
    requires s[k] == ',' && !Quoted(s, k)
    ensures CommaFrom(s, j).Some? && CommaFrom(s, j).value <= k
    decreases k - j
  {
    if j < k && !(s[j] == ',' && !Quoted(s, j)) {
      CommaFromIsFirst(s, j + 1, k);
    }
  }

  /** The piece before the first unprotected comma holds none. */
  lemma {:induction false} CommaFromOfPrefix(s: string, j: nat, k: nat)
    requires j <= k < |s|
    requires CommaFrom(s, j) == Some(k)
    ensures CommaFrom(s[..k], j) == None
    decreases k - j
  {
    if j < k {
      QuotedOfPrefix(s, k, j);
      assert s[..k][j] == s[j];
      CommaFromOfPrefix(s, j + 1, k);
    }
  }

  /** Joining the pieces with commas gives the field back. */
  lemma {:induction false} SplitQuotedJoins(s: string)
    ensures Join(SplitQuoted(s), [',']) == s
    decreases |s|
  {
    match CommaFrom(s, 0)
    case None =>
    case Some(k) =>
      var rest := SplitQuoted(s[k + 1..]);
      SplitQuotedJoins(s[k + 1..]);
      assert ([s[..k]] + rest)[1..] == rest;
      assert s[..k] + [','] + s[k + 1..] == s;
  }

  /** No piece holds a comma outside double quotes. */
  lemma {:induction false} SplitQuotedPieces(s: string)
    ensures forall i :: 0 <= i < |SplitQuoted(s)| ==> CommaFrom(SplitQuoted(s)[i], 0) == None
    decreases |s|
  {
    match CommaFrom(s, 0)
    case None =>
    case Some(k) =>
      CommaFromOfPrefix(s, 0, k);
      SplitQuotedPieces(s[k + 1..]);
  }

  /** A piece for the split: its double quotes are balanced and it holds no comma outside them. */
  predicate Piece(p: string) {
    CommaFrom(p, 0) == None && !Quoted(p, |p|)
  }

  lemma {:induction false} QuotedOfJoin(p: string, rest: string, j: nat)
    requires j <= |p|
    ensures Quoted(p + [','] + rest, j) == Quoted(p, j)
  {
    if j > 0 {
      QuotedOfJoin(p, rest, j - 1);
      assert (p + [','] + rest)[j - 1] == p[j - 1];
    }
  }

  lemma {:induction false} CommaFromOfJoin(p: string, rest: string, j: nat)
    requires j <= |p|
    requires CommaFrom(p, j) == None && !Quoted(p, |p|)
    ensures CommaFrom(p + [','] + rest, j) == Some(|p|)
    decreases |p| - j
  {
    QuotedOfJoin(p, rest, j);
    if j < |p| {
      assert (p + [','] + rest)[j] == p[j];
      CommaFromOfJoin(p, rest, j + 1);
    } else {
      assert (p + [','] + rest)[j] == ',';
    }
  }

  /** Pieces joined by commas split back into the same pieces. */
  lemma {:induction false} SplitQuotedOfJoin(pieces: seq<string>)
    requires |pieces| >= 1
    requires forall i :: 0 <= i < |pieces| ==> Piece(pieces[i])
    ensures SplitQuoted(Join(pieces, [','])) == pieces
    decreases |pieces|
  {
    if |pieces| > 1 {
      var p, rest := pieces[0], Join(pieces[1..], [',']);
      CommaFromOfJoin(p, rest, 0);
      var s := p + [','] + rest;
      assert s[..|p|] == p && s[|p| + 1..] == rest;
      SplitQuotedOfJoin(pieces[1..]);
    }
  }

  // --- lemmas about reading the pieces

  lemma {:induction false} KeptAppend(a: seq<string>, b: seq<string>)
    requires |b| >= 1
    ensures Kept(a + b) == a + Kept(b)
  {
    var n := |a + b|;
    assert (a + b)[n - 1] == b[|b| - 1];
    assert (a + b)[..n - 1] == a + b[..|b| - 1];
  }

  lemma {:induction false} CollectPrefixFails<T>(a: seq<Option<T>>, b: seq<Option<T>>)
    requires Collect(a) == None
    ensures Collect(a + b) == None
    decreases |b|
  {
    if b == [] {
      assert a + b == a;
    } else {
      CollectPrefixFails(a, b[..|b| - 1]);
      assert (a + b)[..|a + b| - 1] == a + b[..|b| - 1];
    }
  }

  /** The collection fails exactly when one of the values is missing. */
  lemma {:induction false} CollectFails<T>(rs: seq<Option<T>>)
    ensures Collect(rs).None? <==> exists i :: 0 <= i < |rs| && rs[i].None?
    decreases |rs|
  {
    if rs != [] {
      var init := rs[..|rs| - 1];
      CollectFails(init);
      if Collect(init).None? {
        var i :| 0 <= i < |init| && init[i].None?;
        assert rs[i] == init[i];
      } else {
        assert forall i :: 0 <= i < |init| ==> rs[i] == init[i];
      }
    }
  }

  /** Otherwise it holds each value in order. */
  lemma {:induction false} CollectValues<T>(rs: seq<Option<T>>)
    requires Collect(rs).Some?
    ensures forall i :: 0 <= i < |rs| ==> rs[i] == Some(Collect(rs).value[i])
    decreases |rs|
  {
    if rs != [] {
      var init := rs[..|rs| - 1];
      CollectValues(init);
      assert forall i :: 0 <= i < |init| ==> rs[i] == init[i];
    }
  }

  lemma ReadAllAppend(a: seq<string>, b: seq<string>)
    ensures ReadAll(a + b) == ReadAll(a) + ReadAll(b)
  {
  }

  /** The dropped `replace` changes no piece that the split produces. */
  lemma {:induction false} LeadingCommaStrippedOfPiece(t: string)
    requires CommaFrom(t, 0) == None
    ensures LeadingCommaStripped(t) == t
  {
    var a := SkipRun(t, 0, true);
    SkipRunHomogeneous(t, 0, true);
    if a < |t| && t[a] == ',' {
      QuotedWithoutQuotes(t, a);
      CommaFromIsFirst(t, 0, a);
    }
  }

  // --- one step of the scan

  /** A double quote flips the parity. */
  lemma {:induction false} QuotedStep(x: string, start: nat, i: nat)
    requires start <= i < |x|
    ensures Quoted(x[start..], i + 1 - start) == (Quoted(x[start..], i - start) != (x[i] == '"'))
  {
    assert x[start..][i - start] == x[i];
  }

  /** A character that is no cut keeps the search for the first cut going. */
  lemma {:induction false} ScanStep(x: string, start: nat, i: nat)
    requires start <= i < |x|
    requires CommaFrom(x[start..], 0) == CommaFrom(x[start..], i - start)
    requires !(x[i] == ',' && !Quoted(x[start..], i - start))
    ensures CommaFrom(x[start..], 0) == CommaFrom(x[start..], i + 1 - start)
  {
    assert x[start..][i - start] == x[i];
  }

  /** A comma outside quotes cuts off the piece that ends there. */
  lemma CutStep(x: string, start: nat, i: nat)
    requires start <= i < |x|
    requires CommaFrom(x[start..], 0) == CommaFrom(x[start..], i - start)
    requires x[i] == ',' && !Quoted(x[start..], i - start)
    ensures SplitQuoted(x[start..]) == [x[start..i]] + SplitQuoted(x[i + 1..])
    ensures CommaFrom(x[start..i], 0) == None
  {
    var t := x[start..];
    assert t[i - start] == x[i];
    assert CommaFrom(t, 0) == Some(i - start);
    assert t[..i - start] == x[start..i] && t[i - start + 1..] == x[i + 1..];
    CommaFromOfPrefix(t, 0, i - start);
  }

  lemma {:induction false} CutPieces(x: string, pieces: seq<string>, start: nat, i: nat)
    requires start <= i < |x|
    requires SplitQuoted(x) == pieces + SplitQuoted(x[start..])
    requires SplitQuoted(x[start..]) == [x[start..i]] + SplitQuoted(x[i + 1..])
    ensures SplitQuoted(x) == (pieces + [x[start..i]]) + SplitQuoted(x[i + 1..])
  {
  }

  /** Past the last cut, the rest of the field is the last piece. */
  lemma {:induction false} LastPiece(x: string, start: nat)
    requires start <= |x|
    requires CommaFrom(x[start..], 0) == CommaFrom(x[start..], |x| - start)
    ensures SplitQuoted(x[start..]) == [x[start..]]
  {
  }

  lemma ReadStep(pieces: seq<string>, contacts: seq<Contact>, piece: string, c: Contact)
    requires Collect(ReadAll(pieces)) == Some(contacts)
    requires ToContactInfo(piece) == Some(c)
    ensures Collect(ReadAll(pieces + [piece])) == Some(contacts + [c])
  {
    ReadAllAppend(pieces, [piece]);
    var got := ReadAll(pieces + [piece]);
    assert got[..|pieces|] == ReadAll(pieces);
  }

  lemma ReadFails(pieces: seq<string>, piece: string, more: seq<string>)
    requires ToContactInfo(piece) == None
    requires |more| >= 1
    ensures Collect(ReadAll(Kept(pieces + [piece] + more))) == None
  {
    KeptAppend(pieces + [piece], more);
    ReadAllAppend(pieces + [piece], Kept(more));
    ReadAllAppend(pieces, [piece]);
    var got := ReadAll(pieces + [piece]);
    assert got[|pieces|] == None;
    CollectFails(got);
    CollectPrefixFails(got, ReadAll(Kept(more)));
  }

  lemma ReadFailsLast(pieces: seq<string>, rest: string)
    requires ToContactInfo(rest) == None
    ensures Collect(ReadAll(pieces + [rest])) == None
  {
    var got := ReadAll(pieces + [rest]);
    assert got[|pieces|] == None;
    CollectFails(got);
  }

  /**
   * The loop of multiContactInfo after index `i`: `quoted` is the quote
   * state since the last cut at `start`, no cut lies between `start` and
   * `i`, `pieces` are the pieces cut so far and `contacts` their reading.
   */
  ghost predicate Scanned(x: string, start: nat, i: nat, quoted: bool, pieces: seq<string>, contacts: seq<Contact>) {
    start <= i <= |x|
    && quoted == Quoted(x[start..], i - start)
    && CommaFrom(x[start..], 0) == CommaFrom(x[start..], i - start)
    && SplitQuoted(x) == pieces + SplitQuoted(x[start..])
    && Collect(ReadAll(pieces)) == Some(contacts)
  }

  /** A character that is no cut moves the scan on, flipping the quote state at a double quote. */
  lemma ScannedStep(x: string, start: nat, i: nat, quoted: bool, pieces: seq<string>, contacts: seq<Contact>)
    requires Scanned(x, start, i, quoted, pieces, contacts) && i < |x|
    requires !(x[i] == ',' && !quoted)
    ensures Scanned(x, start, i + 1, quoted != (x[i] == '"'), pieces, contacts)
  {
    QuotedStep(x, start, i);
    ScanStep(x, start, i);
  }

  /**
   * One cut of multiContactInfo: the piece between `start` and the comma at
   * `i`, with the `replace` applied, read as a contact. None means the read
   * throws, and then so does the whole call.
   */
  method TakePiece(x: string, start: nat, i: nat, ghost pieces: seq<string>, ghost contacts: seq<Contact>)
    returns (c: Option<Contact>)
    requires i < |x| && Scanned(x, start, i, false, pieces, contacts)
    requires x[i] == ','
    ensures c.None? ==> MultiContactInfo(x) == None
    ensures c.Some? ==> Scanned(x, i + 1, i + 1, false, pieces + [x[start..i]], contacts + [c.value])
  {
    var piece := x[start..i];
    CutStep(x, start, i);
    CutPieces(x, pieces, start, i);
    LeadingCommaStrippedOfPiece(piece);
    c := ToContactInfo(LeadingCommaStripped(piece));
    if c.None? {
      ReadFails(pieces, piece, SplitQuoted(x[i + 1..]));
    } else {
      ReadStep(pieces, contacts, piece, c.value);
    }
  }

  /** multiContactInfo: a scan that toggles a quote flag and cuts at each comma outside quotes. */
  method MultiContacts(x: string) returns (r: Option<seq<Contact>>)
    ensures r == MultiContactInfo(x)
  {
    var contacts: seq<Contact> := [];
    ghost var pieces: seq<string> := [];
    var quoted := false;
    var start := 0;
    for i := 0 to |x|
      invariant Scanned(x, start, i, quoted, pieces, contacts)
    {
      if x[i] == '"' {
        quoted := !quoted;
      }
      if x[i] == ',' && !quoted {
        var c := TakePiece(x, start, i, pieces, contacts);
        if c.None? {
          return None;
        }
        contacts := contacts + [c.value];
        pieces := pieces + [x[start..i]];
        start := i + 1;
      } else {
        ScannedStep(x, start, i, quoted != (x[i] == '"'), pieces, contacts);
      }
    }
    var rest := x[start..];
    LastRead(x, start, quoted, pieces, contacts);
    if |rest| > 0 && AllSpace(rest) {
      return Some(contacts);
    }
    var c := ToContactInfo(rest);
    if c.None? {
      return None;
    }
    return Some(contacts + [c.value]);
  }

  /** After the loop: the rest of the field is read unless it is whitespace only. */
  lemma LastRead(x: string, start: nat, quoted: bool, pieces: seq<string>, contacts: seq<Contact>)
    requires Scanned(x, start, |x|, quoted, pieces, contacts)
    ensures var rest := x[start..];
      MultiContactInfo(x)
        == if |rest| > 0 && AllSpace(rest) then Some(contacts)
           else match ToContactInfo(rest)
             case None => None
             case Some(c) => Some(contacts + [c])
  {
    var rest := x[start..];
    LastPiece(x, start);
    KeptAppend(pieces, [rest]);
    if |rest| > 0 && AllSpace(rest) {
      assert pieces + [] == pieces;
    } else if ToContactInfo(rest).None? {
      ReadFailsLast(pieces, rest);
    } else {
      ReadStep(pieces, contacts, rest, ToContactInfo(rest).value);
    }
  }

  // --- what multiContactInfo reads back

  lemma {:induction false} CommaFromWithoutComma(p: string, j: nat)
    requires j <= |p| && ',' !in p
    ensures CommaFrom(p, j) == None
    decreases |p| - j
  {
    if j < |p| {
      CommaFromWithoutComma(p, j + 1);
    }
  }

  lemma {:induction false} CollectAll<T>(rs: seq<Option<T>>, vs: seq<T>)
    requires |rs| == |vs|
    requires forall i :: 0 <= i < |rs| ==> rs[i] == Some(vs[i])
    ensures Collect(rs) == Some(vs)
  {
    CollectFails(rs);
    CollectValues(rs);
    var v := Collect(rs).value;
    assert forall i :: 0 <= i < |v| ==> rs[i] == Some(v[i]) && v[i] == vs[i];
    assert v == vs;
  }

  /** The contacts as an Uploaders field writes them: "Name <address>", separated by ", ". */
  function Listed(cs: seq<Contact>): (pieces: seq<string>)
    ensures |pieces| == |cs|
  {
    seq(|cs|, i requires 0 <= i < |cs| => (if i == 0 then [] else " ") + Format(cs[i]))
  }

  lemma ListedPiece(c: Contact, lead: string)
    requires lead == [] || lead == " "
    requires GoodName(c.name) && GoodEmail(c.email)
    ensures Piece(lead + Format(c))
    ensures ToContactInfo(lead + Format(c)) == Some(c)
    ensures '<' in lead + Format(c)
  {
    var p := lead + Format(c);
    FormatParts(lead, c);
    BracketSlices(lead + c.name + " ", c.email);
    forall k | 0 <= k < |p| ensures p[k] != ',' && p[k] != '"' {
      if |lead| <= k < |lead| + |c.name| {
        assert p[k] == c.name[k - |lead|];
      } else if |lead| + |c.name| + 1 < k < |p| - 1 {
        assert p[k] == c.email[k - |lead| - |c.name| - 2];
      }
    }
    CommaFromWithoutComma(p, 0);
    QuotedWithoutQuotes(p, |p|);
    ToContactInfoOfFormat(lead, c);
  }

  lemma ListedPieces(cs: seq<Contact>)
    requires |cs| >= 1
    requires forall i :: 0 <= i < |cs| ==> GoodName(cs[i].name) && GoodEmail(cs[i].email)
    ensures SplitQuoted(Join(Listed(cs), [','])) == Listed(cs)
    ensures Kept(Listed(cs)) == Listed(cs)
  {
    var pieces := Listed(cs);
    forall i | 0 <= i < |cs| ensures Piece(pieces[i]) {
      ListedPiece(cs[i], if i == 0 then [] else " ");
    }
    SplitQuotedOfJoin(pieces);
    ListedPiece(cs[|cs| - 1], if |cs| == 1 then [] else " ");
  }

  lemma ListedReads(cs: seq<Contact>)
    requires forall i :: 0 <= i < |cs| ==> GoodName(cs[i].name) && GoodEmail(cs[i].email)
    ensures Collect(ReadAll(Listed(cs))) == Some(cs)
  {
    var pieces := Listed(cs);
    forall i | 0 <= i < |cs| ensures ReadAll(pieces)[i] == Some(cs[i]) {
      ListedPiece(cs[i], if i == 0 then [] else " ");
    }
    CollectAll(ReadAll(pieces), cs);
  }

  /** An Uploaders field written from contacts reads back as exactly those contacts. */
  lemma MultiContactInfoOfListed(cs: seq<Contact>)
    requires |cs| >= 1
    requires forall i :: 0 <= i < |cs| ==> GoodName(cs[i].name) && GoodEmail(cs[i].email)
    ensures MultiContactInfo(Join(Listed(cs), [','])) == Some(cs)
  {
    ListedPieces(cs);
    ListedReads(cs);
  }


  lemma {:induction false} CommaFromWithoutCut(s: string, j: nat, k: nat)
    requires j <= k <= |s|
    requires forall i :: j <= i < k ==> s[i] != ',' || Quoted(s, i)
    ensures CommaFrom(s, j) == CommaFrom(s, k)
    decreases k - j
  {
    if j < k {
      CommaFromWithoutCut(s, j + 1, k);
    }
  }

  lemma {:induction false} QuotedCommaSplit(s: string)
    requires s == "\"Doe, J\" <j@d>"
    ensures SplitQuoted(s) == [s]
  {
    assert Quoted(s, 1);
    assert Quoted(s, 2);
    assert Quoted(s, 3);
    assert Quoted(s, 4);
    CommaFromWithoutCut(s, 0, |s|);
  }

  lemma QuotedCommaName(u: string)
    requires u == "\"Doe, J\" "
    ensures StripName(u) == "Doe, J"
  {
    assert SkipRun(u, 9, true) == 9 && SkipRun(u, 8, true) == 9;
    assert SkipRun(u, 6, true) == 6 && SkipRun(u, 5, true) == 6;
    assert StripFrom(u, 8) == [];
    assert StripFrom(u, 7) == [];
    assert StripFrom(u, 6) == "J";
    assert StripFrom(u, 5) == " J";
    assert StripFrom(u, 4) == ", J";
    assert StripFrom(u, 3) == "e, J";
    assert StripFrom(u, 2) == "oe, J";
    assert StripFrom(u, 1) == "Doe, J";
  }

  lemma QuotedCommaRead(s: string)
    requires s == "\"Doe, J\" <j@d>"
    ensures ToContactInfo(s) == Some(Contact("Doe, J", "j@d"))
  {
    var u, v := "\"Doe, J\" ", "j@d";
    assert s == u + "<" + v + ">";
    AngleMatchOfBracket(u, v);
    BracketSlices(u, v);
    assert s[0..|u|] == u && s[|u| + 1..|s| - 1] == v;
    QuotedCommaName(u);
    assert [] + v + [] == v;
    TrimOfPadded([], v, []);
  }

  /** A comma inside double quotes does not cut, and the quotes leave the name. */
  lemma MultiContactInfoQuotedComma()
    ensures MultiContactInfo("\"Doe, J\" <j@d>") == Some([Contact("Doe, J", "j@d")])
  {
    var s := "\"Doe, J\" <j@d>";
    QuotedCommaSplit(s);
    assert Kept([s]) == [s];
    QuotedCommaRead(s);
    CollectAll(ReadAll([s]), [Contact("Doe, J", "j@d")]);
  }

  lemma ListedWithTail(cs: seq<Contact>, tail: string)
    requires forall i :: 0 <= i < |cs| ==> GoodName(cs[i].name) && GoodEmail(cs[i].email)
    requires tail == [] || tail == " "
    ensures SplitQuoted(Join(Listed(cs) + [tail], [','])) == Listed(cs) + [tail]
  {
    var pieces := Listed(cs) + [tail];
    forall i | 0 <= i < |pieces| ensures Piece(pieces[i]) {
      if i < |cs| {
        ListedPiece(cs[i], if i == 0 then [] else " ");
      } else {
        CommaFromWithoutComma(tail, 0);
        QuotedWithoutQuotes(tail, |tail|);
      }
    }
    SplitQuotedOfJoin(pieces);
  }

  /** A trailing ", " is dropped: its piece is whitespace only. */
  lemma MultiContactInfoDropsBlankTail(cs: seq<Contact>)
    requires forall i :: 0 <= i < |cs| ==> GoodName(cs[i].name) && GoodEmail(cs[i].email)
    ensures MultiContactInfo(Join(Listed(cs) + [" "], [','])) == Some(cs)
  {
    ListedWithTail(cs, " ");
    assert Kept(Listed(cs) + [" "]) == Listed(cs);
    ListedReads(cs);
  }

  /** A trailing "," is not: its empty piece reads as an empty contact. */
  lemma MultiContactInfoKeepsEmptyTail(cs: seq<Contact>)
    requires forall i :: 0 <= i < |cs| ==> GoodName(cs[i].name) && GoodEmail(cs[i].email)
    ensures MultiContactInfo(Join(Listed(cs) + [[]], [','])) == Some(cs + [Contact([], [])])
  {
    ListedWithTail(cs, []);
    var pieces := Listed(cs) + [[]];
    assert Kept(pieces) == pieces;
    assert ToContactInfo([]) == Some(Contact([], []));
    forall i | 0 <= i < |pieces| ensures ReadAll(pieces)[i] == Some((cs + [Contact([], [])])[i]) {
      if i < |cs| {
        ListedPiece(cs[i], if i == 0 then [] else " ");
      }
    }
    CollectAll(ReadAll(pieces), cs + [Contact([], [])]);
  }
}
