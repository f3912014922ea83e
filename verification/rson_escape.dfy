/**
 * Model of `CheckUTF8Valid` (primedev/rtech/rson/parser.cpp), the pre-check the
 * client runs over a network-supplied RSON string before the engine's own
 * UTF-8 decoder sees it, and of the hook `h_RSON_ParseUTF8` that gates on it.
 *
 * Memory is a byte sequence whose indices are addresses; an address is
 * readable (the `IsMemoryReadable` probe) exactly when it is below `|mem|`.
 * Only the first byte of each unit is probed in the source; the escape
 * selector, the hex digits and the second `\u` are read unprobed.  The model
 * returns the explicit outcome `ReadPastMemory` where such a read would leave
 * readable memory.  Bytes are `bv8` here because the routine computes with
 * 32-bit words (`DWORD`) and sign-extended `char`s.
 */
module RsonEscape {
  import opened Basics

  const Backslash: bv8 := 0x5C
  const Quote: bv8 := 0x22

  /** What the scanner writes to its destination: a byte as is, or a code value
      for the engine's UTF-8 encoder `sub_F1320`. */
  datatype Unit = Raw(b: bv8) | Encoded(code: bv32)

  /** How the scan ended; every exit but `Unreadable` makes the routine return true. */
  datatype Exit =
    | RangeEnd           // the cursor met the end of the range right after a unit
    | Short              // the count field is at most 2: nothing is scanned
    | LoneLowSurrogate   // \uDC00 .. \uDFFF without a preceding high surrogate
    | HighWithoutEscape  // a high surrogate not followed by `\u`
    | HighWithoutLow     // a high surrogate followed by `\u` and no low surrogate
    | Unreadable         // the readability probe failed: the only `false`
    | ReadPastMemory     // an unprobed read beyond readable memory (undefined in the source)

  datatype Scan = Scan(exit: Exit, emitted: seq<Unit>)

  type U16 = x: nat | x < 0x1_0000
  type U32 = x: nat | x < 0x1_0000_0000

  /** The descriptor `a2`: offset `a2[0]`, the 16-bit length at byte 4, count `a2[2]`. */
  datatype Span = Span(offset: U32, length: U16, count: U32)

  /** A `char` read as the source's signed char and widened to a `DWORD`. */
  function SignExtend(c: bv8): bv32 {
    if c < 0x80 then c as bv32 else (c as bv32) | 0xFFFF_FF00
  }

  /** The source's digit decoding: force bit 5, then subtract '0' or 87 (= 'a' - 10). */
  function HexDigit(c: bv8): bv32 {
    var x := SignExtend(c) | 0x20;
    if x <= 0x39 then x - 48 else x - 87
  }

  /** Four digits combined most significant first, with 32-bit wrap-around. */
  function Hex4(d: seq<bv8>): bv32
    requires |d| == 4
  {
    (HexDigit(d[0]) << 12) | (HexDigit(d[1]) << 8) | (HexDigit(d[2]) << 4) | HexDigit(d[3])
  }

  /** The source's combination of a high surrogate with the low half's offset:
      no 0x10000 is added. */
  function CombineAsWritten(hi: bv32, lowOffset: bv32): bv32 {
    lowOffset | ((hi - 0xD800) << 10)
  }

  datatype UnitOutcome = Emit(u: Unit, next: nat) | Reject(exit: Exit) | Fault

  /** The byte a one-letter escape `\x` (other than `\u`) stands for: the five
      control escapes, and the letter itself otherwise. */
  function Unescape(sel: bv8): bv8 {
    if sel == 'n' as bv8 then 0x0A
    else if sel == 't' as bv8 then 0x09
    else if sel == 'r' as bv8 then 0x0D
    else if sel == 'b' as bv8 then 0x08
    else if sel == 'f' as bv8 then 0x0C
    else sel
  }

  /** Decodes the unit at `p`, whose first byte the probe found readable. */
  function DecodeUnit(mem: seq<bv8>, p: nat): (r: UnitOutcome)
    requires p < |mem|
    ensures r.Emit? ==> p < r.next <= |mem|
    ensures r.Reject? ==> r.exit in {LoneLowSurrogate, HighWithoutEscape, HighWithoutLow}
  {
    if mem[p] != Backslash then Emit(Raw(mem[p]), p + 1)
    else if p + 1 >= |mem| then Fault
    else if mem[p + 1] != 'u' as bv8 then Emit(Raw(Unescape(mem[p + 1])), p + 2)
    else DecodeCodeUnit(mem, p + 2)
  }

  /**
   * The four hex digits after `\u` at `q`; a high surrogate must be followed
   * by `\u` and a low surrogate, and the pair is combined without the plane
   * offset.
   */
  function DecodeCodeUnit(mem: seq<bv8>, q: nat): (r: UnitOutcome)
    requires 2 <= q <= |mem|
    ensures r.Emit? ==> q + 4 <= r.next <= |mem|
    ensures r.Reject? ==> r.exit in {LoneLowSurrogate, HighWithoutEscape, HighWithoutLow}
  {
    if q + 4 > |mem| then Fault
    else
      var code := Hex4(mem[q..q + 4]);
      var s := q + 4;
      if code - 0xD800 > 0x7FF then Emit(Encoded(code), s)
      else if code >= 0xDC00 then Reject(LoneLowSurrogate)
      else if s >= |mem| then Fault
      else if mem[s] != Backslash then Reject(HighWithoutEscape)
      else if s + 1 >= |mem| then Fault
      else if mem[s + 1] != 'u' as bv8 then Reject(HighWithoutEscape)
      else if s + 6 > |mem| then Fault
      else
        var lowOffset := Hex4(mem[s + 2..s + 6]) - 0xDC00;
        if lowOffset > 0x3FF then Reject(HighWithoutLow)
        else Emit(Encoded(CombineAsWritten(code, lowOffset)), s + 6)
  }

  /**
   * The scan loop from cursor `p`: probe, decode one unit, emit it, and stop
   * only when the cursor then equals `end` exactly.
   */
  function ScanFrom(mem: seq<bv8>, p: nat, end: int, acc: seq<Unit>): (r: Scan)
    ensures acc <= r.emitted
    ensures r.exit != Short
    decreases |mem| - p
  {
    if p >= |mem| then Scan(Unreadable, acc)
    else
      match DecodeUnit(mem, p)
      case Fault => Scan(ReadPastMemory, acc)
      case Reject(e) => Scan(e, acc)
      case Emit(u, next) =>
        if next == end then Scan(RangeEnd, acc + [u])
        else ScanFrom(mem, next, end, acc + [u])
  }

  /**
   * `CheckUTF8Valid(a1, a2, strData)`: `base` is the buffer address `a1[1]`.
   * The range starts one byte after `base + offset` and ends one byte before
   * `base + offset + length`.
   */
  function CheckUtf8Valid(mem: seq<bv8>, base: nat, span: Span): (r: Scan)
    ensures span.count <= 2 <==> r == Scan(Short, [])
  {
    if span.count < 2 || span.count == 2 then Scan(Short, [])
    else
      var start := base + span.offset;
      ScanFrom(mem, start + 1, start + span.length - 1, [])
  }

  /** The routine's boolean result (not defined for `ReadPastMemory`). */
  function Returned(s: Scan): (ok: bool)
    requires s.exit != ReadPastMemory
  {
    s.exit != Unreadable
  }

  /**
   * `h_RSON_ParseUTF8`: when the call comes from the network-data call site
   * (the return-address match, here the flag `fromNetwork`), a `false` from the
   * check returns `false` at once; otherwise the engine's routine runs and its
   * result (`original`) is returned.
   */
  function ParseUtf8Hook(mem: seq<bv8>, base: nat, span: Span, fromNetwork: bool, original: bool): (r: bool)
    requires fromNetwork ==> CheckUtf8Valid(mem, base, span).exit != ReadPastMemory
    ensures !fromNetwork ==> r == original
    ensures r != original ==> fromNetwork && CheckUtf8Valid(mem, base, span).exit == Unreadable && !r
  {
    if fromNetwork && !Returned(CheckUtf8Valid(mem, base, span)) then false else original
  }

  /** The destination bytes, given the engine's encoder; it writes 1 to 4 bytes per value. */
  function Destination(units: seq<Unit>, encode: bv32 -> seq<bv8>): (d: seq<bv8>)
    requires forall v :: 1 <= |encode(v)| <= 4
    ensures |units| <= |d| <= 4 * |units|
  {
    if |units| == 0 then []
    else
      (match units[0]
       case Raw(b) => [b]
       case Encoded(v) => encode(v)) + Destination(units[1..], encode)
  }
}
