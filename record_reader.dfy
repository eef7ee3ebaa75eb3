/**
 * The byte-level reader of Debian control files (the paragraph syntax of
 * section 5.1 of the Debian Policy Manual) that src/aptreader.ts implements as
 * the generator iterRecords.
 *
 * The reader takes the file as a series of byte chunks and yields, in order,
 * a `Field(name, value)` for every field it has assembled and a `Boundary` for
 * every blank line (the source yields `null` there). It keeps its state
 * across chunks: a mode, the field name last seen, and the value bytes in a
 * fixed 32 KiB buffer, into which writes past the end are dropped while the
 * count `out` keeps growing.
 *
 * `Step`, `ScanFrom`, `Resume`, `Chunk`, `Feed` and `Records` say what the
 * reader does, byte by byte; the class `Reader` does it in place and is proved
 * to agree with them.
 */
module ByteRecords {

  newtype Byte = x: int | 0 <= x < 256

  /** Capacity of the value buffer: 2 * 16384 bytes. */
  const BufferSize: nat := 32768

  /** buf2string's chunk size for String.fromCharCode. */
  const Stride: nat := 65534

  function Min(a: int, b: int): int {
    if a < b then a else b
  }

  /** Latin-1 decoding: every byte becomes the character with the same code. */
  function Latin1(bs: seq<Byte>): (s: string)
    ensures |s| == |bs|
  {
    seq(|bs|, i requires 0 <= i < |bs| => (bs[i] as int) as char)
  }

  lemma Latin1Append(a: seq<Byte>, b: seq<Byte>)
    ensures Latin1(a + b) == Latin1(a) + Latin1(b)
  {
  }

  /** Decoding is one to one: distinct byte strings decode to distinct strings. */
  lemma Latin1Injective(a: seq<Byte>, b: seq<Byte>)
    requires Latin1(a) == Latin1(b)
    ensures a == b
  {
    forall i | 0 <= i < |a|
      ensures a[i] == b[i]
    {
      assert Latin1(a)[i] == Latin1(b)[i];
    }
  }

  /**
   * buf2string: the first `len` bytes of `buf` decoded, converted `Stride`
   * bytes at a time; a subarray past the end of the buffer is cut at its end,
   * so a count beyond the capacity reads the whole buffer.
   */
  method Buf2String(buf: array<Byte>, len: nat) returns (result: string)
    ensures result == Latin1(buf[..Min(len, buf.Length)])
  {
    result := "";
    var end := 0;
    var start := 0;
    while start < len
      invariant start <= len
      invariant result == Latin1(buf[..Min(start, buf.Length)])
      decreases len - start
    {
      end := Min(len, start + Stride);
      var lo, hi := Min(start, buf.Length), Min(end, buf.Length);
      assert buf[..hi] == buf[..lo] + buf[lo..hi];
      Latin1Append(buf[..lo], buf[lo..hi]);
      result := result + Latin1(buf[lo..hi]);
      start := end;
    }
  }

  // ---------------------------------------------------------------------------
  // What the reader does, byte by byte
  // ---------------------------------------------------------------------------

  datatype Record = Field(name: string, value: string) | Boundary

  /**
   * The reader's state between bytes. `mode` is 0 at a line start, 1 in a
   * field name, 2 in a value, 3 after a newline that ended a chunk (whether
   * it ends the value is decided by the next chunk's first byte). `kept` is
   * what the buffer holds of the `out` bytes written since the last reset.
   */
  datatype Scan = Scan(mode: nat, out: nat, kept: seq<Byte>, field: string)

  const Start := Scan(0, 0, [], "")

  /** Where a scan stopped, the state it left, and what it yielded. */
  datatype Moved = Moved(next: nat, st: Scan, items: seq<Record>)

  function Write(st: Scan, c: Byte): Scan {
    st.(out := st.out + 1, kept := if st.out < BufferSize then st.kept + [c] else st.kept)
  }

  function Reset(st: Scan): Scan {
    st.(out := 0, kept := [])
  }

  /** The field assembled so far, when a field name has been seen. */
  function Emit(st: Scan): seq<Record> {
    if st.field != "" then [Field(st.field, Latin1(st.kept))] else []
  }

  /** A byte after a newline that ends the value: a non-blank byte, LF or CR. */
  predicate EndsValue(b: Byte) {
    b > 32 || b == 10 || b == 13
  }

  /** One pass of the inner loop of iterRecords, on the byte at `i`. */
  function Step(buf: seq<Byte>, i: nat, st: Scan): Moved
    requires i < |buf|
  {
    var c := buf[i];
    var mode := if st.mode == 0 && c > 32 then 1 else st.mode;
    if mode == 1 && c == 10 then Moved(i + 1, Reset(st).(mode := 0), [])
    else if mode == 1 && c == 45 then Moved(i + 1, st.(mode := 1), [])
    else if mode == 1 && c == 58 then Moved(i + 2, Scan(2, 0, [], Latin1(st.kept)), [])
    else if c == 10 && st.out == 0 then Moved(i + 1, st.(mode := 0), [Boundary])
    else if c == 10 && i + 1 == |buf| then Moved(i + 1, st.(mode := 3), [])
    else if c == 10 && EndsValue(buf[i + 1]) then Moved(i + 1, Reset(st).(mode := 0), Emit(st))
    else if c == 10 then Moved(i + 1, Write(st.(mode := 2), c), [])
    else Moved(i + 1, Write(st.(mode := mode), c), [])
  }

  /** The inner loop of iterRecords from index `i` of one chunk. */
  function ScanFrom(buf: seq<Byte>, i: nat, st: Scan): Moved
    decreases |buf| - i
  {
    if i >= |buf| then Moved(i, st, [])
    else
      var m := Step(buf, i, st);
      var r := ScanFrom(buf, m.next, m.st);
      r.(items := m.items + r.items)
  }

  /** The decision a chunk's first byte makes about a newline that ended the previous chunk. */
  function Resume(st: Scan, buf: seq<Byte>): (Scan, seq<Record>) {
    if st.mode != 3 then (st, [])
    else if |buf| > 0 && EndsValue(buf[0]) then (Reset(st).(mode := 0), Emit(st))
    else (st.(mode := 2), [])
  }

  /** One iteration of the outer loop of iterRecords: one chunk. */
  function Chunk(st: Scan, buf: seq<Byte>): Moved {
    var (s0, y0) := Resume(st, buf);
    var r := ScanFrom(buf, 0, s0);
    r.(items := y0 + r.items)
  }

  /** The chunks in order. */
  function Feed(st: Scan, chunks: seq<seq<Byte>>): (Scan, seq<Record>)
    decreases |chunks|
  {
    if chunks == [] then (st, [])
    else
      var m := Chunk(st, chunks[0]);
      var r := Feed(m.st, chunks[1..]);
      (r.0, m.items + r.1)
  }

  /** Everything iterRecords yields for `chunks`, the final flush included. */
  function Records(chunks: seq<seq<Byte>>): seq<Record> {
    var r := Feed(Start, chunks);
    r.1 + Emit(r.0)
  }

  // ---------------------------------------------------------------------------
  // What every yielded field looks like
  // ---------------------------------------------------------------------------

  /** A byte that can end up in a field name: '-' is skipped, ':' ends the name, LF discards it. */
  predicate NameByte(b: Byte) {
    b != 10 && b != 45 && b != 58
  }

  predicate NameChar(c: char) {
    c != '\n' && c != '-' && c != ':'
  }

  /**
   * The reader's invariant: the buffer holds what the count says, up to the
   * capacity; at a line start or in a field name it holds only name bytes;
   * and the field name last seen holds only name characters.
   */
  ghost predicate Good(st: Scan) {
    |st.kept| == Min(st.out, BufferSize)
    && (st.mode <= 1 ==> forall k :: 0 <= k < |st.kept| ==> NameByte(st.kept[k]))
    && forall k :: 0 <= k < |st.field| ==> NameChar(st.field[k])
  }

  /** A yielded field has a non-empty name without '-', ':' or LF, and a value of at most `BufferSize` characters. */
  ghost predicate GoodRecord(r: Record) {
    r.Field? ==> r.name != "" && (forall k :: 0 <= k < |r.name| ==> NameChar(r.name[k])) && |r.value| <= BufferSize
  }

  ghost predicate AllGood(items: seq<Record>) {
    forall k :: 0 <= k < |items| ==> GoodRecord(items[k])
  }

  lemma AllGoodAppend(a: seq<Record>, b: seq<Record>)
    requires AllGood(a) && AllGood(b)
    ensures AllGood(a + b)
  {
    forall k | 0 <= k < |a + b|
      ensures GoodRecord((a + b)[k])
    {
      if k < |a| {
        assert (a + b)[k] == a[k];
      } else {
        assert (a + b)[k] == b[k - |a|];
      }
    }
  }

  lemma EmitGood(st: Scan)
    requires Good(st)
    ensures AllGood(Emit(st))
  {
  }

  lemma WriteGood(st: Scan, c: Byte)
    requires Good(st) && (st.mode <= 1 ==> NameByte(c))
    ensures Good(Write(st, c))
  {
  }

  lemma StepGood(buf: seq<Byte>, i: nat, st: Scan)
    requires i < |buf| && Good(st)
    ensures Good(Step(buf, i, st).st) && AllGood(Step(buf, i, st).items)
  {
    var c := buf[i];
    var mode := if st.mode == 0 && c > 32 then 1 else st.mode;
    if mode == 1 && (c == 10 || c == 45) {
    } else if mode == 1 && c == 58 {
      forall k | 0 <= k < |st.kept|
        ensures NameChar(Latin1(st.kept)[k])
      {
        assert NameByte(st.kept[k]);
      }
    } else if c == 10 && st.out == 0 {
    } else if c == 10 && i + 1 == |buf| {
    } else if c == 10 && EndsValue(buf[i + 1]) {
      EmitGood(st);
    } else if c == 10 {
      WriteGood(st.(mode := 2), c);
    } else {
      WriteGood(st.(mode := mode), c);
    }
  }

  lemma {:induction false} ScanGood(buf: seq<Byte>, i: nat, st: Scan)
    requires Good(st)
    ensures Good(ScanFrom(buf, i, st).st) && AllGood(ScanFrom(buf, i, st).items)
    decreases |buf| - i
  {
    if i < |buf| {
      var m := Step(buf, i, st);
      StepGood(buf, i, st);
      ScanGood(buf, m.next, m.st);
      AllGoodAppend(m.items, ScanFrom(buf, m.next, m.st).items);
    }
  }

  lemma ChunkGood(st: Scan, buf: seq<Byte>)
    requires Good(st)
    ensures Good(Chunk(st, buf).st) && AllGood(Chunk(st, buf).items)
  {
    var (s0, y0) := Resume(st, buf);
    EmitGood(st);
    ScanGood(buf, 0, s0);
    AllGoodAppend(y0, ScanFrom(buf, 0, s0).items);
  }

  lemma {:induction false} FeedGood(st: Scan, chunks: seq<seq<Byte>>)
    requires Good(st)
    ensures Good(Feed(st, chunks).0) && AllGood(Feed(st, chunks).1)
    decreases |chunks|
  {
    if chunks != [] {
      var m := Chunk(st, chunks[0]);
      ChunkGood(st, chunks[0]);
      FeedGood(m.st, chunks[1..]);
      AllGoodAppend(m.items, Feed(m.st, chunks[1..]).1);
    }
  }

  /**
   * Every field iterRecords yields has a non-empty name with no '-', ':' or
   * LF in it, and a value of at most 32768 characters.
   */
  lemma RecordsWellFormed(chunks: seq<seq<Byte>>)
    ensures AllGood(Records(chunks))
  {
    FeedGood(Start, chunks);
    EmitGood(Feed(Start, chunks).0);
    AllGoodAppend(Feed(Start, chunks).1, Emit(Feed(Start, chunks).0));
  }

  // ---------------------------------------------------------------------------
  // Chunk boundaries
  // ---------------------------------------------------------------------------

  /** A step inside `b2` does the same at the same offset of `b1 + b2`. */
  lemma StepShift(b1: seq<Byte>, b2: seq<Byte>, j: nat, st: Scan)
    requires j < |b2|
    ensures var x, y := Step(b2, j, st), Step(b1 + b2, |b1| + j, st);
      y.next == x.next + |b1| && y.st == x.st && y.items == x.items
  {
    assert (b1 + b2)[|b1| + j] == b2[j];
    if j + 1 < |b2| {
      assert (b1 + b2)[|b1| + j + 1] == b2[j + 1];
    }
  }

  lemma {:induction false} ScanFromStep(buf: seq<Byte>, i: nat, st: Scan)
    requires i < |buf|
    ensures var m := Step(buf, i, st); var r := ScanFrom(buf, m.next, m.st);
      ScanFrom(buf, i, st) == r.(items := m.items + r.items)
  { }

  /** One unfolding of ScanFrom, with the step's outcome named. */
  lemma {:induction false} ScanFromAt(buf: seq<Byte>, i: nat, st: Scan, next: nat, st': Scan, items: seq<Record>)
    requires i < |buf|
    requires var m := Step(buf, i, st); m.next == next && m.st == st' && m.items == items
    ensures var x, r := ScanFrom(buf, i, st), ScanFrom(buf, next, st');
      x.next == r.next && x.st == r.st && x.items == items + r.items
  { }

  /** A scan inside `b2` is the same scan inside `b1 + b2`, shifted by `|b1|`. */
  lemma {:induction false} ScanShift(b1: seq<Byte>, b2: seq<Byte>, j: nat, st: Scan)
    ensures var x, y := ScanFrom(b2, j, st), ScanFrom(b1 + b2, |b1| + j, st);
      y.next == x.next + |b1| && y.st == x.st && y.items == x.items
    decreases |b2| - j
  {
    if j < |b2| {
      var m := Step(b2, j, st);
      ScanShift(b1, b2, m.next, m.st);
      ShiftOne(b1, b2, j, st);
    } else {
      assert |b1| + j >= |b1 + b2|;
    }
  }

  /** One step of ScanShift, given the shift for the rest of the scan. */
  lemma ShiftOne(b1: seq<Byte>, b2: seq<Byte>, j: nat, st: Scan)
    requires j < |b2|
    requires var m := Step(b2, j, st);
      var x, y := ScanFrom(b2, m.next, m.st), ScanFrom(b1 + b2, |b1| + m.next, m.st);
      y.next == x.next + |b1| && y.st == x.st && y.items == x.items
    ensures var x, y := ScanFrom(b2, j, st), ScanFrom(b1 + b2, |b1| + j, st);
      y.next == x.next + |b1| && y.st == x.st && y.items == x.items
  {
    var m := Step(b2, j, st);
    StepShift(b1, b2, j, st);
    ScanFromAt(b2, j, st, m.next, m.st, m.items);
    ScanFromAt(b1 + b2, |b1| + j, st, |b1| + m.next, m.st, m.items);
    ShiftAlgebra(ScanFrom(b2, j, st), ScanFrom(b1 + b2, |b1| + j, st),
      ScanFrom(b2, m.next, m.st), ScanFrom(b1 + b2, |b1| + m.next, m.st), m.items, |b1|);
  }

  /** The bookkeeping of one step of ScanShift, on the results alone. */
  lemma ShiftAlgebra(x: Moved, y: Moved, r: Moved, q: Moved, items: seq<Record>, d: nat)
    requires x.next == r.next && x.st == r.st && x.items == items + r.items
    requires y.next == q.next && y.st == q.st && y.items == items + q.items
    requires q.next == r.next + d && q.st == r.st && q.items == r.items
    ensures y.next == x.next + d && y.st == x.st && y.items == x.items
  { }

  /**
   * What the byte at the end of `b1` decides about a newline that ended
   * `b1`, when the scan of `b1 + b2` goes on into `b2`: the value ends if
   * `b2` starts with a byte that ends it, and otherwise the newline is kept.
   */
  function Across(st: Scan, b2: seq<Byte>): (Scan, seq<Record>)
    requires b2 != []
  {
    if st.mode != 3 then (st, [])
    else if EndsValue(b2[0]) then (Reset(st).(mode := 0), Emit(st))
    else (Write(st.(mode := 2), 10), [])
  }

  /** The step on the last byte of `b1`, taken inside `b1 + b2`. */
  lemma StepPrefix(b1: seq<Byte>, b2: seq<Byte>, i: nat, st: Scan)
    requires i < |b1| && b2 != []
    ensures var m := Step(b1, i, st);
      var a := Across(m.st, b2);
      (m.st.mode != 3 ==> Step(b1 + b2, i, st) == m)
      && (m.st.mode == 3 && st.mode != 3 ==> Step(b1 + b2, i, st) == Moved(i + 1, a.0, m.items + a.1))
  {
    assert (b1 + b2)[i] == b1[i];
    if i + 1 < |b1| {
      assert (b1 + b2)[i + 1] == b1[i + 1];
    } else {
      assert (b1 + b2)[i + 1] == b2[0];
    }
  }

  /**
   * Scanning `b1 + b2` from inside `b1` is scanning `b1` alone, then the
   * decision `Across` on a newline that ended `b1`, then the rest.
   */
  lemma {:induction false} ScanPrefix(b1: seq<Byte>, b2: seq<Byte>, i: nat, st: Scan)
    requires i <= |b1| + 1 && b2 != [] && st.mode != 3
    ensures var r := ScanFrom(b1, i, st);
      var a := Across(r.st, b2);
      var t := ScanFrom(b1 + b2, r.next, a.0);
      ScanFrom(b1 + b2, i, st) == t.(items := r.items + a.1 + t.items)
    decreases |b1| + 1 - i
  {
    var r := ScanFrom(b1, i, st);
    if i >= |b1| {
      assert r == Moved(i, st, []);
      assert r.items + [] + ScanFrom(b1 + b2, i, st).items == ScanFrom(b1 + b2, i, st).items;
    } else if Step(b1, i, st).st.mode == 3 {
      ScanPrefixAtNewline(b1, b2, i, st);
    } else {
      var m := Step(b1, i, st);
      StepPrefix(b1, b2, i, st);
      assert Step(b1 + b2, i, st) == m;
      ScanPrefix(b1, b2, m.next, m.st);
      var r' := ScanFrom(b1, m.next, m.st);
      var a := Across(r'.st, b2);
      var t := ScanFrom(b1 + b2, r'.next, a.0);
      assert ScanFrom(b1 + b2, m.next, m.st) == t.(items := r'.items + a.1 + t.items);
      ScanFromStep(b1, i, st);
      assert r == r'.(items := m.items + r'.items);
      ScanFromStep(b1 + b2, i, st);
      assert ScanFrom(b1 + b2, i, st) == t.(items := m.items + (r'.items + a.1 + t.items));
      ConcatAssociates(m.items, r'.items + a.1, t.items);
      ConcatAssociates(m.items, r'.items, a.1);
    }
  }

  /** The case of ScanPrefix where the byte at `i` is a newline that ends `b1`. */
  lemma {:induction false} ScanPrefixAtNewline(b1: seq<Byte>, b2: seq<Byte>, i: nat, st: Scan)
    requires i < |b1| && b2 != [] && st.mode != 3
    requires Step(b1, i, st).st.mode == 3
    ensures var r := ScanFrom(b1, i, st);
      var a := Across(r.st, b2);
      var t := ScanFrom(b1 + b2, r.next, a.0);
      ScanFrom(b1 + b2, i, st) == t.(items := r.items + a.1 + t.items)
  {
    var m := Step(b1, i, st);
    assert m.next == |b1|;
    StepPrefix(b1, b2, i, st);
    var a := Across(m.st, b2);
    assert Step(b1 + b2, i, st) == Moved(|b1|, a.0, m.items + a.1);
    assert ScanFrom(b1, |b1|, m.st) == Moved(|b1|, m.st, []);
    ScanFromStep(b1, i, st);
    assert ScanFrom(b1, i, st) == Moved(|b1|, m.st, m.items + []);
    ScanFromStep(b1 + b2, i, st);
  }

  /** A scan from a state other than 3 stops at the end of the chunk, or one past it after a ':'. */
  lemma {:induction false} ScanEnds(b: seq<Byte>, i: nat, st: Scan)
    requires i <= |b| && st.mode != 3
    ensures var r := ScanFrom(b, i, st);
      |b| <= r.next <= |b| + 1
      && (r.next == |b| + 1 ==> r.st.mode == 2)
      && (r.st.mode == 3 ==> r.next == |b|)
    decreases |b| - i
  {
    if i < |b| {
      var m := Step(b, i, st);
      if m.next <= |b| && m.st.mode != 3 {
        ScanEnds(b, m.next, m.st);
      }
    }
  }

  /** A chunk split in two: the first part alone, the decision `Across`, then the rest of the second part. */
  lemma ChunkSplit(st: Scan, b1: seq<Byte>, b2: seq<Byte>)
    requires b1 != [] && b2 != []
    ensures |b1| <= Chunk(st, b1).next <= |b1| + 1
    ensures var r := Chunk(st, b1);
      var a := Across(r.st, b2);
      var t := ScanFrom(b2, r.next - |b1|, a.0);
      Chunk(st, b1 + b2).st == t.st
      && Chunk(st, b1 + b2).items == r.items + a.1 + t.items
  {
    assert (b1 + b2)[0] == b1[0];
    var (s0, y0) := Resume(st, b1);
    var r0 := ScanFrom(b1, 0, s0);
    ScanEnds(b1, 0, s0);
    ScanPrefix(b1, b2, 0, s0);
    var a := Across(r0.st, b2);
    ScanShift(b1, b2, r0.next - |b1|, a.0);
    var t := ScanFrom(b2, r0.next - |b1|, a.0);
    ConcatAssociates(y0, r0.items + a.1, t.items);
    ConcatAssociates(y0, r0.items, a.1);
  }

  /**
   * Splitting a chunk changes nothing when the first part ends neither
   * right after a field name's ':' nor in a newline that the second part
   * continues.
   */
  lemma ChunkSplitClean(st: Scan, b1: seq<Byte>, b2: seq<Byte>)
    requires b1 != [] && b2 != []
    requires Chunk(st, b1).next == |b1|
    requires Chunk(st, b1).st.mode == 3 ==> EndsValue(b2[0])
    ensures Chunk(st, b1 + b2).st == Chunk(Chunk(st, b1).st, b2).st
    ensures Chunk(st, b1 + b2).items == Chunk(st, b1).items + Chunk(Chunk(st, b1).st, b2).items
  {
    ChunkSplit(st, b1, b2);
    var r := Chunk(st, b1);
    ConcatAssociates(r.items, Resume(r.st, b2).1, ScanFrom(b2, 0, Resume(r.st, b2).0).items);
  }

  /**
   * A split right after a field name's ':': the whole chunk skips the byte
   * after the ':', the split chunks keep it as the value's first byte.
   */
  lemma {:induction false} ChunkSplitAfterColon(st: Scan, b1: seq<Byte>, b2: seq<Byte>)
    requires b1 != [] && b2 != []
    requires Chunk(st, b1).next == |b1| + 1
    ensures var r := Chunk(st, b1);
      Chunk(st, b1 + b2).st == ScanFrom(b2, 1, r.st).st
      && Chunk(st, b1 + b2).items == r.items + ScanFrom(b2, 1, r.st).items
      && Chunk(r.st, b2) == ScanFrom(b2, 0, r.st)
  {
    ChunkSplit(st, b1, b2);
    var r := Chunk(st, b1);
    var s0 := Resume(st, b1).0;
    ScanEnds(b1, 0, s0);
    assert r.st.mode == 2;
  }

  /**
   * A split right after a newline that the second part continues: the whole
   * chunk keeps the newline in the value, the split chunks drop it.
   */
  lemma {:induction false} ChunkSplitLosesNewline(st: Scan, b1: seq<Byte>, b2: seq<Byte>)
    requires b1 != [] && b2 != []
    requires Chunk(st, b1).st.mode == 3 && !EndsValue(b2[0])
    ensures var r := Chunk(st, b1);
      Chunk(st, b1 + b2).st == ScanFrom(b2, 0, Write(r.st.(mode := 2), 10)).st
      && Chunk(st, b1 + b2).items == r.items + ScanFrom(b2, 0, Write(r.st.(mode := 2), 10)).items
      && Chunk(r.st, b2) == ScanFrom(b2, 0, r.st.(mode := 2))
  {
    ChunkSplit(st, b1, b2);
    var r := Chunk(st, b1);
    var s0 := Resume(st, b1).0;
    ScanEnds(b1, 0, s0);
  }

  /** The same for the whole stream: a clean split of one chunk in two leaves the yields and the final state as they were. */
  lemma {:induction false} FeedSplitClean(st: Scan, b1: seq<Byte>, b2: seq<Byte>, rest: seq<seq<Byte>>)
    requires b1 != [] && b2 != []
    requires Chunk(st, b1).next == |b1|
    requires Chunk(st, b1).st.mode == 3 ==> EndsValue(b2[0])
    ensures Feed(st, [b1 + b2] + rest) == Feed(st, [b1, b2] + rest)
  {
    ChunkSplitClean(st, b1, b2);
    var r1 := Chunk(st, b1);
    var r2 := Chunk(r1.st, b2);
    var f := Feed(r2.st, rest);
    assert ([b1 + b2] + rest)[1..] == rest;
    assert ([b1, b2] + rest)[1..] == [b2] + rest && ([b2] + rest)[1..] == rest;
    assert Feed(r1.st, [b2] + rest) == (f.0, r2.items + f.1);
    ConcatAssociates(r1.items, r2.items, f.1);
  }

  // ---------------------------------------------------------------------------
  // Examples
  // ---------------------------------------------------------------------------

  /** A single chunk: what its scan from the start yields, then the final flush. */
  lemma {:induction false} RecordsOfOneChunk(b: seq<Byte>, end: Moved)
    requires ScanFrom(b, 0, Start) == end
    ensures Records([b]) == end.items + Emit(end.st)
  {
    assert Resume(Start, b) == (Start, []);
    assert [] + end.items == end.items;
    assert Chunk(Start, b) == end;
    assert [b][0] == b && [b][1..] == [];
    assert Feed(end.st, []) == (end.st, []);
    assert end.items + [] == end.items;
    assert Feed(Start, [b]) == (end.st, end.items);
  }

  /** "A: v" and a newline in one chunk: the byte after ':' is skipped. */
  lemma ExampleWhole()
    ensures Records([[65, 58, 32, 118, 10]]) == [Field("A", "v")]
  {
    var b: seq<Byte> := [65, 58, 32, 118, 10];
    var s1 := Scan(1, 1, [65], "");
    var s2 := Scan(2, 0, [], "A");
    var s3 := Scan(2, 1, [118], "A");
    var end := Moved(5, s3.(mode := 3), []);
    assert Latin1([65]) == "A";
    assert Latin1([118]) == "v";
    assert ScanFrom(b, 5, s3.(mode := 3)) == end;
    assert Step(b, 4, s3) == end;
    assert ScanFrom(b, 4, s3) == end;
    assert Step(b, 3, s2) == Moved(4, s3, []);
    assert ScanFrom(b, 3, s2) == end;
    assert Step(b, 1, s1) == Moved(3, s2, []);
    assert ScanFrom(b, 1, s1) == end;
    assert Step(b, 0, Start) == Moved(1, s1, []);
    assert ScanFrom(b, 0, Start) == end;
    RecordsOfOneChunk(b, end);
  }

  /**
   * A blank line after a value ends it and yields a boundary; the flush at
   * the end of input then yields the last field name again, with an empty value.
   */
  lemma ExampleBlankLine()
    ensures Records([[65, 58, 32, 118, 10, 10]]) == [Field("A", "v"), Boundary, Field("A", "")]
  {
    var b: seq<Byte> := [65, 58, 32, 118, 10, 10];
    var s1 := Scan(1, 1, [65], "");
    var s2 := Scan(2, 0, [], "A");
    var s3 := Scan(2, 1, [118], "A");
    var s4 := Scan(0, 0, [], "A");
    var end := Moved(6, s4, [Field("A", "v"), Boundary]);
    assert Latin1([65]) == "A";
    assert Latin1([118]) == "v";
    assert Latin1([]) == "";
    assert ScanFrom(b, 6, s4) == Moved(6, s4, []);
    assert Step(b, 5, s4) == Moved(6, s4, [Boundary]);
    assert ScanFrom(b, 5, s4) == Moved(6, s4, [Boundary]);
    assert Step(b, 4, s3) == Moved(5, s4, [Field("A", "v")]);
    assert ScanFrom(b, 4, s3) == end;
    assert Step(b, 3, s2) == Moved(4, s3, []);
    assert ScanFrom(b, 3, s2) == end;
    assert Step(b, 1, s1) == Moved(3, s2, []);
    assert ScanFrom(b, 1, s1) == end;
    assert Step(b, 0, Start) == Moved(1, s1, []);
    assert ScanFrom(b, 0, Start) == end;
    assert Emit(s4) == [Field("A", "")];
    RecordsOfOneChunk(b, end);
  }

  /** A name line without ':' is discarded at its newline. */
  lemma ExampleNameWithoutColon()
    ensures Records([[120, 10, 65, 58, 32, 118, 10]]) == [Field("A", "v")]
  {
    var b: seq<Byte> := [120, 10, 65, 58, 32, 118, 10];
    var n1 := Scan(1, 1, [120], "");
    var n2 := Scan(0, 0, [], "");
    var s1 := Scan(1, 1, [65], "");
    var s2 := Scan(2, 0, [], "A");
    var s3 := Scan(2, 1, [118], "A");
    var end := Moved(7, s3.(mode := 3), []);
    assert Latin1([65]) == "A";
    assert Latin1([118]) == "v";
    assert ScanFrom(b, 7, s3.(mode := 3)) == end;
    assert Step(b, 6, s3) == end;
    assert ScanFrom(b, 6, s3) == end;
    assert Step(b, 5, s2) == Moved(6, s3, []);
    assert ScanFrom(b, 5, s2) == end;
    assert Step(b, 3, s1) == Moved(5, s2, []);
    assert ScanFrom(b, 3, s1) == end;
    assert Step(b, 2, n2) == Moved(3, s1, []);
    assert ScanFrom(b, 2, n2) == end;
    assert Step(b, 1, n1) == Moved(2, n2, []);
    assert ScanFrom(b, 1, n1) == end;
    assert Step(b, 0, Start) == Moved(1, n1, []);
    assert ScanFrom(b, 0, Start) == end;
    RecordsOfOneChunk(b, end);
  }

  /** The same bytes split right after ':': the value keeps the space. */
  lemma ExampleSplitAfterColon()
    ensures Records([[65, 58], [32, 118, 10]]) == [Field("A", " v")]
  {
    var b1: seq<Byte> := [65, 58];
    var b2: seq<Byte> := [32, 118, 10];
    var s1 := Scan(1, 1, [65], "");
    var s2 := Scan(2, 0, [], "A");
    var t1 := Scan(2, 1, [32], "A");
    var t2 := Scan(2, 2, [32, 118], "A");
    assert Latin1([65]) == "A";
    assert ScanFrom(b1, 1, s1) == Moved(3, s2, []);
    assert ScanFrom(b1, 0, Start) == Moved(3, s2, []);
    assert ScanFrom(b2, 2, t2) == Moved(3, t2.(mode := 3), []);
    assert ScanFrom(b2, 1, t1) == Moved(3, t2.(mode := 3), []);
    assert ScanFrom(b2, 0, s2) == Moved(3, t2.(mode := 3), []);
    assert Feed(s2, [b2]) == (t2.(mode := 3), []);
    assert [b1, b2][1..] == [b2];
    assert Latin1([32, 118]) == " v";
  }

  /** "A: x", a newline, " y" and a newline in one chunk: the continuation keeps its newline. */
  lemma ExampleContinuation()
    ensures Records([[65, 58, 32, 120, 10, 32, 121, 10]]) == [Field("A", "x\n y")]
  {
    var b: seq<Byte> := [65, 58, 32, 120, 10, 32, 121, 10];
    var s1 := Scan(1, 1, [65], "");
    var s2 := Scan(2, 0, [], "A");
    var s3 := Scan(2, 1, [120], "A");
    var s4 := Scan(2, 2, [120, 10], "A");
    var s5 := Scan(2, 3, [120, 10, 32], "A");
    var s6 := Scan(2, 4, [120, 10, 32, 121], "A");
    var end := Moved(8, s6.(mode := 3), []);
    assert Latin1([65]) == "A";
    assert ScanFrom(b, 8, s6.(mode := 3)) == end;
    assert Step(b, 7, s6) == Moved(8, s6.(mode := 3), []);
    assert ScanFrom(b, 7, s6) == end;
    assert Step(b, 6, s5) == Moved(7, s6, []);
    assert ScanFrom(b, 6, s5) == end;
    assert Step(b, 5, s4) == Moved(6, s5, []);
    assert ScanFrom(b, 5, s4) == end;
    assert Step(b, 4, s3) == Moved(5, s4, []);
    assert ScanFrom(b, 4, s3) == end;
    assert Step(b, 3, s2) == Moved(4, s3, []);
    assert ScanFrom(b, 3, s2) == end;
    assert Step(b, 1, s1) == Moved(3, s2, []);
    assert ScanFrom(b, 1, s1) == end;
    assert Step(b, 0, Start) == Moved(1, s1, []);
    assert ScanFrom(b, 0, Start) == end;
    assert Latin1([120, 10, 32, 121]) == "x\n y";
    RecordsOfOneChunk(b, end);
  }

  /** "A: x" and a newline as a chunk of its own: the decision on the newline is pending. */
  lemma ExampleChunkEndsInNewline()
    ensures Chunk(Start, [65, 58, 32, 120, 10]) == Moved(5, Scan(3, 1, [120], "A"), [])
  {
    var b1: seq<Byte> := [65, 58, 32, 120, 10];
    var s2 := Scan(2, 0, [], "A");
    var s3 := Scan(2, 1, [120], "A");
    assert Latin1([65]) == "A";
    assert ScanFrom(b1, 4, s3) == Moved(5, s3.(mode := 3), []);
    assert ScanFrom(b1, 3, s2) == Moved(5, s3.(mode := 3), []);
  }

  /** The same bytes split right after the first newline: the continuation loses it. */
  lemma ExampleSplitLosesNewline()
    ensures Records([[65, 58, 32, 120, 10], [32, 121, 10]]) == [Field("A", "x y")]
  {
    var b1: seq<Byte> := [65, 58, 32, 120, 10];
    var b2: seq<Byte> := [32, 121, 10];
    var s3 := Scan(2, 1, [120], "A");
    var t := Scan(2, 3, [120, 32, 121], "A");
    ExampleChunkEndsInNewline();
    assert ScanFrom(b2, 2, t) == Moved(3, t.(mode := 3), []);
    assert ScanFrom(b2, 0, s3) == Moved(3, t.(mode := 3), []);
    assert Feed(s3.(mode := 3), [b2]) == (t.(mode := 3), []);
    assert [b1, b2][1..] == [b2];
    assert Latin1([120, 32, 121]) == "x y";
  }

  /** An empty chunk after a chunk that ends in a newline makes the next line a continuation. */
  lemma ExampleEmptyChunk()
    ensures Records([[65, 58, 32, 120, 10], [], [66, 10]]) == [Field("A", "xB")]
  {
    var b1: seq<Byte> := [65, 58, 32, 120, 10];
    var b3: seq<Byte> := [66, 10];
    var s3 := Scan(2, 1, [120], "A");
    var t := Scan(2, 2, [120, 66], "A");
    ExampleChunkEndsInNewline();
    assert Chunk(s3.(mode := 3), []) == Moved(0, s3, []);
    assert ScanFrom(b3, 0, s3) == Moved(2, t.(mode := 3), []);
    assert Feed(s3, [b3]) == (t.(mode := 3), []);
    assert [b1, [], b3][1..] == [[], b3] && [[], b3][1..] == [b3];
    assert Latin1([120, 66]) == "xB";
  }

  lemma ConcatAssociates<T>(a: seq<T>, b: seq<T>, c: seq<T>)
    ensures (a + b) + c == a + (b + c)
  {
  }

  // ---------------------------------------------------------------------------
  // The generator, in place
  // ---------------------------------------------------------------------------

  /** The local state of a running iterRecords, with its yields so far. */
  class Reader {
    const asciibuf: array<Byte>
    var field: string
    var state: nat
    var out: nat
    var emitted: seq<Record>

    ghost predicate Valid()
      reads this
    {
      asciibuf.Length == BufferSize
    }

    /** The buffer holds the first `out` bytes written, up to its capacity. */
    ghost function View(): Scan
      reads this, asciibuf
    {
      Scan(state, out, asciibuf[..Min(out, asciibuf.Length)], field)
    }

    constructor ()
      ensures Valid() && View() == Start && emitted == []
      ensures fresh(asciibuf)
    {
      asciibuf := new Byte[BufferSize];
      field := "";
      state := 0;
      out := 0;
      emitted := [];
    }

    /** asciibuf[out++] = c: a write past the end is dropped, the count still grows. */
    method Put(c: Byte)
      requires Valid()
      modifies this, asciibuf
      ensures Valid() && field == old(field) && state == old(state) && emitted == old(emitted)
      ensures View() == Write(old(View()), c)
    {
      if out < asciibuf.Length {
        asciibuf[out] := c;
        assert asciibuf[..out + 1] == old(asciibuf[..out]) + [c];
      }
      out := out + 1;
    }

    /** Yields the field assembled so far, if a field name has been seen. */
    method EmitField()
      requires Valid()
      modifies this
      ensures Valid() && View() == old(View())
      ensures emitted == old(emitted) + Emit(old(View()))
    {
      if field != "" {
        var v := Buf2String(asciibuf, out);
        emitted := emitted + [Field(field, v)];
      }
    }

    /**
     * One pass of the inner loop, on the byte at `i0`; returns the next index.
     * Every `continue` of the source is a return here, and so is its `break`,
     * which it reaches only with the index at the end of the chunk.
     */
    method StepAt(buf: seq<Byte>, i0: nat) returns (i: nat)
      requires Valid() && i0 < |buf|
      modifies this, asciibuf
      ensures Valid()
      ensures View() == Step(buf, i0, old(View())).st && i == Step(buf, i0, old(View())).next
      ensures emitted == old(emitted) + Step(buf, i0, old(View())).items
    {
      var c := buf[i0];
      i := i0 + 1;
      if state == 0 && c > 32 {
        state := 1;
      }
      if state == 1 {
        if c == 10 {
          out := 0;
          state := 0;
          return;
        }
        if c == 45 {
          return;
        }
        if c == 58 {
          field := Buf2String(asciibuf, out);
          i := i + 1;
          out := 0;
          state := 2;
          return;
        }
      }
      if c == 10 {
        if out == 0 {
          emitted := emitted + [Boundary];
          state := 0;
          return;
        }
        if i == |buf| {
          state := 3;
          return;
        }
        state := 2;
        var nc := buf[i];
        if nc > 32 || nc == 10 || nc == 13 {
          EmitField();
          out := 0;
          state := 0;
          return;
        }
      }
      Put(c);
    }

    /** The decision at the start of a chunk about a newline that ended the previous one. */
    method ResumeAt(buf: seq<Byte>)
      requires Valid()
      modifies this
      ensures Valid()
      ensures View() == Resume(old(View()), buf).0
      ensures emitted == old(emitted) + Resume(old(View()), buf).1
    {
      if state == 3 {
        if |buf| > 0 && EndsValue(buf[0]) {
          EmitField();
          out := 0;
          state := 0;
        } else {
          state := 2;
        }
      }
    }

    /** One iteration of the outer loop: the chunk-start decision, then every byte of `buf`. */
    method FeedChunk(buf: seq<Byte>)
      requires Valid()
      modifies this, asciibuf
      ensures Valid()
      ensures View() == Chunk(old(View()), buf).st
      ensures emitted == old(emitted) + Chunk(old(View()), buf).items
    {
      ghost var goal := Chunk(View(), buf);
      ghost var e0 := emitted;
      ResumeAt(buf);
      ConcatAssociates(e0, Resume(old(View()), buf).1, ScanFrom(buf, 0, View()).items);
      var i := 0;
      while i < |buf|
        invariant Valid() && i <= |buf| + 1
        invariant ScanFrom(buf, i, View()).st == goal.st
        invariant emitted + ScanFrom(buf, i, View()).items == e0 + goal.items
        decreases |buf| - i
      {
        ghost var before, e1, i1 := View(), emitted, i;
        i := StepAt(buf, i);
        ghost var m, r := Step(buf, i1, before), ScanFrom(buf, i, View());
        assert ScanFrom(buf, i1, before) == r.(items := m.items + r.items);
        ConcatAssociates(e1, m.items, r.items);
      }
    }

    /** The flush after the last chunk. */
    method Finish()
      requires Valid()
      modifies this
      ensures Valid() && View() == old(View())
      ensures emitted == old(emitted) + Emit(old(View()))
    {
      EmitField();
    }
  }

  /** iterRecords, with its yields collected in order. */
  method IterRecords(chunks: seq<seq<Byte>>) returns (records: seq<Record>)
    ensures records == Records(chunks)
  {
    var reader := new Reader();
    var k := 0;
    assert chunks[0..] == chunks;
    assert reader.emitted + Feed(Start, chunks).1 == Feed(Start, chunks).1;
    while k < |chunks|
      invariant 0 <= k <= |chunks|
      invariant reader.Valid()
      invariant Feed(Start, chunks) == (Feed(reader.View(), chunks[k..]).0, reader.emitted + Feed(reader.View(), chunks[k..]).1)
      decreases |chunks| - k
    {
      ghost var before, e1 := reader.View(), reader.emitted;
      assert chunks[k..][0] == chunks[k] && chunks[k..][1..] == chunks[k + 1..];
      reader.FeedChunk(chunks[k]);
      ghost var m, r := Chunk(before, chunks[k]), Feed(reader.View(), chunks[k + 1..]);
      assert Feed(before, chunks[k..]) == (r.0, m.items + r.1);
      ConcatAssociates(e1, m.items, r.1);
      k := k + 1;
    }
    reader.Finish();
    records := reader.emitted;
  }
}
