/**
 * The ZStream constructor of src/inflate/zlib/zstream.ts: the windowBits
 * argument chooses the wrapper (bit 0 of `wrap` for the zlib format of
 * RFC 1950, bit 1 for the gzip format of RFC 1952, none for raw DEFLATE) and
 * the base-two logarithm of the window size, or is refused as "stream error".
 * The decoder state the constructor allocates keeps its defaults otherwise.
 */
module ZStreams {
  import opened Wrappers

  /** The two values the constructor stores in the decoder state. */
  datatype Window = Window(wrap: int, wbits: int)

  /**
   * The decoding of windowBits: negative means raw DEFLATE with window
   * -windowBits; otherwise bits 4 and up select the wrapper (plus one) and,
   * below 48, the low four bits are the window. None is "stream error": a
   * non-zero window outside 8..15.
   */
  function DecodeWindowBits(windowBits: int): (r: Option<Window>)
    ensures r.Some? ==> 0 <= r.value.wrap <= 3
    ensures r.Some? ==> r.value.wbits == 0 || 8 <= r.value.wbits <= 15
  {
    var wrap := if windowBits < 0 then 0 else windowBits / 16 + 1;
    var bits := if windowBits < 0 then -windowBits else if windowBits < 48 then windowBits % 16 else windowBits;
    if bits != 0 && (bits < 8 || bits > 15) then None else Some(Window(wrap, bits))
  }

  /** The windowBits argument that asks for a given window. */
  function EncodeWindow(w: Window): int {
    if w.wrap == 0 then -w.wbits else (w.wrap - 1) * 16 + w.wbits
  }

  /** A window the constructor can produce: a wrapper mode 0..3 and a size 8..15, or 0 with a wrapper. */
  predicate ValidWindow(w: Window) {
    0 <= w.wrap <= 3 && (if w.wrap == 0 then 8 <= w.wbits <= 15 else w.wbits == 0 || 8 <= w.wbits <= 15)
  }

  /** Exactly these arguments are accepted: -15..-8, and 0..47 whose low four bits are 0 or 8..15. */
  lemma DecodeAcceptsExactly(windowBits: int)
    ensures DecodeWindowBits(windowBits).Some?
      <==> (-15 <= windowBits <= -8
            || (0 <= windowBits < 48 && (windowBits % 16 == 0 || 8 <= windowBits % 16)))
  {
  }

  /** Every argument of 48 or more is refused. */
  lemma DecodeRefusesLarge(windowBits: int)
    requires windowBits >= 48
    ensures DecodeWindowBits(windowBits) == None
  {
  }

  /** A negative argument asks for raw DEFLATE: no wrapper, window -windowBits. */
  lemma DecodeNegative(windowBits: int)
    requires -15 <= windowBits <= -8
    ensures DecodeWindowBits(windowBits) == Some(Window(0, -windowBits))
  {
  }

  /** Decoding recovers every window the constructor can produce from the argument that asks for it. */
  lemma DecodeEncode(w: Window)
    requires ValidWindow(w)
    ensures DecodeWindowBits(EncodeWindow(w)) == Some(w)
  {
  }

  /** And every accepted argument is the one that asks for the window it decodes to. */
  lemma EncodeDecode(windowBits: int)
    requires DecodeWindowBits(windowBits).Some?
    ensures ValidWindow(DecodeWindowBits(windowBits).value)
    ensures EncodeWindow(DecodeWindowBits(windowBits).value) == windowBits
  {
  }

  /** The checksum the stream starts with: `wrap & 1` when there is a wrapper, else 0. */
  function InitialAdler(wrap: int): (a: int)
    requires 0 <= wrap <= 3
    ensures a == 1 <==> wrap == 1 || wrap == 3
    ensures a == 0 || a == 1
  {
    if wrap != 0 then wrap % 2 else 0
  }

  /** The argument inflate passes, 47: automatic zlib or gzip detection with a 32K window. */
  lemma DecodeAutoDetect()
    ensures DecodeWindowBits(47) == Some(Window(3, 15))
    ensures InitialAdler(3) == 1
  {
  }

  /** The decoder state, with the defaults of src/inflate/zlib/gzstate.ts. */
  class GZState {
    var mode: int
    var last: int
    var wrap: int
    var havedict: int
    var flags: int
    var dmax: int
    var check: int
    var total: int
    var wbits: int
    var wsize: int
    var whave: int
    var wnext: int
    var window: array?<int>
    var hold: int
    var bits: int
    var length: int
    var offset: int
    var extra: int
    var lencode: array?<int>
    var distcode: array?<int>
    var lenbits: int
    var distbits: int
    var ncode: int
    var nlen: int
    var ndist: int
    var have: int
    var lens: array<int>
    var work: array<int>
    var lendyn: array?<int>
    var distdyn: array?<int>
    var sane: bool
    var back: int
    var was: int

    /** Every field but `wrap` and `wbits` holds its default. */
    predicate OtherDefaults()
      reads this, lens, work
    {
      mode == 0 && last == 0 && havedict == 0 && flags == 0 && dmax == 0 && check == 0 && total == 0
      && wsize == 0 && whave == 0 && wnext == 0 && window == null && hold == 0 && bits == 0
      && length == 0 && offset == 0 && extra == 0 && lencode == null && distcode == null
      && lenbits == 0 && distbits == 0 && ncode == 0 && nlen == 0 && ndist == 0 && have == 0
      && lens.Length == 320 && work.Length == 288
      && (forall k :: 0 <= k < 320 ==> lens[k] == 0) && (forall k :: 0 <= k < 288 ==> work[k] == 0)
      && lendyn == null && distdyn == null && !sane && back == 0 && was == 0
    }

    /** new GZstate(): every field at its default, the two code-length buffers zero-filled. */
    constructor()
      ensures OtherDefaults() && wrap == 0 && wbits == 0
      ensures fresh(lens) && fresh(work)
    {
      mode, last, wrap, havedict, flags, dmax, check, total := 0, 0, 0, 0, 0, 0, 0, 0;
      wbits, wsize, whave, wnext, window := 0, 0, 0, 0, null;
      hold, bits, length, offset, extra := 0, 0, 0, 0, 0;
      lencode, distcode, lenbits, distbits := null, null, 0, 0;
      ncode, nlen, ndist, have := 0, 0, 0, 0;
      lens := new int[320](_ => 0);
      work := new int[288](_ => 0);
      lendyn, distdyn, sane, back, was := null, null, false, 0, 0;
    }
  }

  /** The stream: its buffers and counters at their defaults, and its decoder state. */
  class ZStream {
    var input: array?<int>
    var nextIn: int
    var availIn: int
    var totalIn: int
    var output: array?<int>
    var nextOut: int
    var availOut: int
    var totalOut: int
    var msg: string
    var dataType: int
    var adler: int
    var state: GZState

    /** The fields the constructor leaves at their declared defaults. */
    predicate BufferDefaults()
      reads this
    {
      input == null && nextIn == 0 && availIn == 0 && totalIn == 0
      && output == null && nextOut == 0 && availOut == 0 && totalOut == 0
      && msg == [] && dataType == 2
    }

    /** The object built around a fresh state, before the constructor body stores the window. */
    constructor(state: GZState)
      ensures this.state == state && BufferDefaults() && adler == 0
    {
      input, nextIn, availIn, totalIn := null, 0, 0, 0;
      output, nextOut, availOut, totalOut := null, 0, 0, 0;
      msg, dataType, adler := [], 2, 0;
      this.state := state;
    }
  }

  /**
   * new ZStream(windowBits): null where the constructor throws "stream
   * error"; otherwise a fresh stream whose state holds the decoded wrapper
   * and window, whose adler is `wrap & 1` when there is a wrapper, and whose
   * other fields keep their defaults.
   */
  method NewZStream(windowBits: int) returns (strm: ZStream?)
    ensures strm == null <==> DecodeWindowBits(windowBits).None?
    ensures strm != null ==>
      var w := DecodeWindowBits(windowBits).value;
      fresh(strm) && fresh(strm.state) && fresh(strm.state.lens) && fresh(strm.state.work)
      && strm.state.wrap == w.wrap && strm.state.wbits == w.wbits
      && strm.adler == InitialAdler(w.wrap)
      && strm.BufferDefaults() && strm.state.OtherDefaults()
  {
    var state := new GZState();
    var wrap: int;
    var bits := windowBits;
    if bits < 0 {
      wrap := 0;
      bits := -bits;
    } else {
      // `>> 4` on a non-negative argument below 2^31 is division by 16; larger ones are refused below either way.
      wrap := bits / 16 + 1;
      if bits < 48 {
        bits := bits % 16;   // `&= 15`
      }
    }
    if bits != 0 && (bits < 8 || bits > 15) {
      return null;
    }
    strm := new ZStream(state);
    state.wrap := wrap;
    state.wbits := bits;
    if wrap != 0 {
      strm.adler := wrap % 2;   // `wrap & 1`
    }
  }
}
