/**
 * Model of the engine's bounds-checked LZSS decompressor (`CLZSS::SafeUncompress`
 * replacement in primedev/tier1/lzss.cpp).
 *
 * Stream layout: an 8-byte header (little-endian magic 0x53535A4C, then the
 * declared decompressed size), followed by groups of one control byte and up to
 * eight units.  Bit k of the control byte (least significant first) says whether
 * unit k is a literal (0) or a back-reference (1).  A back-reference is two bytes
 * b0, b1: distance ((b0 << 4) | (b1 >> 4)) + 1 and length (b1 & 0x0F) + 1; a
 * length of 1 is the end-of-stream marker.
 *
 * The source never checks that its reads stay inside the compressed input; the
 * model turns every such read past the end of `input` into the explicit
 * failure `InputExhausted`, where the source would read beyond its buffer.
 * `totalBytes` is an `unsigned int` in the source; the model keeps the produced
 * byte count unbounded (see `CapacityGuardAsWritten` for the difference).
 */
module Lzss {
  import opened Basics

  /** "LZSS" read as a little-endian 32-bit word. */
  const Magic: nat := 0x53535A4C
  const HeaderSize: nat := 8

  datatype Failure =
    | BadHeader             // wrong magic, zero declared size, or declared size above capacity
    | ReferenceBeforeStart  // a back-reference reaches before the first produced byte
    | CapacityExceeded      // the next unit would write at or beyond the capacity
    | SizeMismatch          // the terminator came with a byte count other than the declared one
    | InputExhausted        // a read past the end of the input (unchecked in the source)

  datatype Decoded = Ok(output: seq<Byte>) | Err(failure: Failure)

  /** The decoder's registers between two units: input offset, the `getCmdByte`
      counter, the remaining (shifted) control bits, and everything written so far. */
  datatype Cursor = Cursor(ip: nat, phase: nat, cmd: nat, out: seq<Byte>)

  ghost predicate WellFormed(input: seq<Byte>, c: Cursor) {
    c.ip <= |input| && c.phase < 8
  }

  datatype StepOutcome =
    | Continue(next: Cursor)
    | Terminated(out: seq<Byte>)
    | Stopped(failure: Failure)

  /** The distance encoded by a back-reference's two bytes: 1 .. 4096
      (`LZSS_LOOKSHIFT` is 4, so the shifts are multiplications by 16). */
  function RefDistance(b0: Byte, b1: Byte): (d: nat)
    ensures 1 <= d <= 4096
  {
    b0 * 16 + b1 / 16 + 1
  }

  /** The length encoded by a back-reference's second byte: 1 .. 16. */
  function RefLength(b1: Byte): (n: nat)
    ensures 1 <= n <= 16
  {
    b1 % 16 + 1
  }

  /**
   * Appends `count` bytes, the byte `position` places back from each write index,
   * one at a time in increasing order, so that the copy may read bytes it has
   * itself just written (run-length behaviour when `position < count`).
   */
  function CopyBack(out: seq<Byte>, position: nat, count: nat): (r: seq<Byte>)
    requires 1 <= position <= |out|
    ensures |r| == |out| + count
    ensures out <= r
    decreases count
  {
    if count == 0 then out
    else CopyBack(out + [out[|out| - position]], position, count - 1)
  }

  /** Every appended byte equals the byte `position` places before it. */
  lemma {:induction false} CopyBackReadsBehind(out: seq<Byte>, position: nat, count: nat, j: nat)
    requires 1 <= position <= |out|
    requires |out| <= j < |out| + count
    ensures CopyBack(out, position, count)[j] == CopyBack(out, position, count)[j - position]
    decreases count
  {
    var next := out + [out[|out| - position]];
    var r := CopyBack(out, position, count);
    assert r == CopyBack(next, position, count - 1);
    assert next <= r;
    if j > |out| {
      CopyBackReadsBehind(next, position, count - 1, j);
    }
  }

  /** `i` reduced below `p` by repeated subtraction: the remainder of `i` by `p`. */
  function Wrap(i: nat, p: nat): (w: nat)
    requires p >= 1
    ensures w < p
    decreases i
  {
    if i < p then i else Wrap(i - p, p)
  }

  /**
   * Closed form of the overlapping copy: the appended bytes repeat the last
   * `position` bytes of `out` periodically.
   */
  lemma {:induction false} CopyBackPeriodic(out: seq<Byte>, position: nat, count: nat, j: nat)
    requires 1 <= position <= |out|
    requires |out| <= j < |out| + count
    ensures CopyBack(out, position, count)[j] == out[|out| - position + Wrap(j - |out|, position)]
    decreases j
  {
    CopyBackReadsBehind(out, position, count, j);
    if j - position >= |out| {
      CopyBackPeriodic(out, position, count, j - position);
    }
  }

  /** With distance 1 a back-reference repeats the last byte `count` times. */
  lemma CopyBackRepeatsLastByte(out: seq<Byte>, count: nat)
    requires 1 <= |out|
    ensures forall j :: |out| <= j < |out| + count ==> CopyBack(out, 1, count)[j] == out[|out| - 1]
  {
    forall j | |out| <= j < |out| + count
      ensures CopyBack(out, 1, count)[j] == out[|out| - 1]
    {
      CopyBackPeriodic(out, 1, count, j);
    }
  }

  /**
   * The copy loop of the source, with an explicit read index trailing the write
   * index by `position`: both advance together, one byte per iteration.  It
   * computes what `CopyBack` describes.
   */
  method CopyForward(out: seq<Byte>, position: nat, count: nat) returns (r: seq<Byte>)
    requires 1 <= position <= |out|
    ensures |r| == |out| + count
    ensures r[..|out|] == out
    ensures forall j :: |out| <= j < |r| ==> r[j] == r[j - position]
    ensures r == CopyBack(out, position, count)
  {
    r := out;
    var src := |out| - position;
    var i := 0;
    while i < count
      invariant 0 <= i <= count
      invariant |r| == |out| + i
      invariant src == |r| - position
      invariant r[..|out|] == out
      invariant forall j :: |out| <= j < |r| ==> r[j] == r[j - position]
      invariant CopyBack(r, position, count - i) == CopyBack(out, position, count)
    {
      r := r + [r[src]];
      src := src + 1;
      i := i + 1;
    }
  }

  /**
   * The capacity check before a unit writes `n` bytes, with `total` bytes
   * already produced: the new total must not exceed the capacity.
   */
  predicate CapacityGuard(total: nat, n: nat, cap: nat) {
    total + n <= cap
  }

  /**
   * The same check as compiled: `totalBytes` is an `unsigned int`, so
   * `totalBytes += count` wraps modulo 2^32 before the comparison.
   */
  predicate CapacityGuardAsWritten(total: nat, n: nat, cap: nat) {
    (total + n) % TwoTo32 <= cap
  }

  /**
   * With a capacity of 0xFFFFFFFF and 0xFFFFFFF8 bytes produced, a 16-byte
   * back-reference wraps the counter to 8 and passes the compiled check,
   * although it writes past the capacity.
   */
  lemma CapacityGuardAsWrittenOverflows()
    ensures CapacityGuardAsWritten(0xFFFF_FFF8, 16, 0xFFFF_FFFF)
    ensures !CapacityGuard(0xFFFF_FFF8, 16, 0xFFFF_FFFF)
  {
  }

  /** Below 2^32 - 16 the two checks agree, so the model is the source there. */
  lemma CapacityGuardsAgree(total: nat, n: nat, cap: nat)
    requires total <= cap && n <= 16 && cap + 16 < TwoTo32
    ensures CapacityGuardAsWritten(total, n, cap) <==> CapacityGuard(total, n, cap)
  {
  }

  /** The control bits governing the unit at `c`: a fresh control byte at phase 0. */
  function ControlBits(input: seq<Byte>, c: Cursor): nat
    requires WellFormed(input, c)
    requires c.phase == 0 ==> c.ip < |input|
  {
    if c.phase == 0 then input[c.ip] else c.cmd
  }

  /** Where the unit at `c` begins, after any control byte. */
  function UnitStart(c: Cursor): nat {
    if c.phase == 0 then c.ip + 1 else c.ip
  }

  /** Decodes one unit, reading a fresh control byte before every eighth unit. */
  function Step(input: seq<Byte>, cap: nat, c: Cursor): (r: StepOutcome)
    requires WellFormed(input, c)
    ensures r.Continue? ==>
              && WellFormed(input, r.next)
              && c.ip < r.next.ip
              && r.next.phase == (c.phase + 1) % 8
              && c.out < r.next.out
              && |r.next.out| <= |c.out| + 16
              && |r.next.out| <= cap
    ensures r.Terminated? ==> r.out == c.out
  {
    if c.phase == 0 && c.ip == |input| then Stopped(InputExhausted)
    else
      var cmd := ControlBits(input, c);
      var ip := UnitStart(c);
      var phase := (c.phase + 1) % 8;
      if cmd % 2 == 1 then
        if ip + 2 > |input| then Stopped(InputExhausted)
        else
          var position := RefDistance(input[ip], input[ip + 1]);
          var count := RefLength(input[ip + 1]);
          if count == 1 then Terminated(c.out)
          else if position > |c.out| then Stopped(ReferenceBeforeStart)
          else if !CapacityGuard(|c.out|, count, cap) then Stopped(CapacityExceeded)
          else Continue(Cursor(ip + 2, phase, cmd / 2, CopyBack(c.out, position, count)))
      else if !CapacityGuard(|c.out|, 1, cap) then Stopped(CapacityExceeded)
      else if ip + 1 > |input| then Stopped(InputExhausted)
      else Continue(Cursor(ip + 1, phase, cmd / 2, c.out + [input[ip]]))
  }

  /** A literal unit appends exactly the next input byte when it fits. */
  lemma LiteralAppendsNextByte(input: seq<Byte>, cap: nat, c: Cursor)
    requires WellFormed(input, c) && (c.phase == 0 ==> c.ip < |input|)
    requires ControlBits(input, c) % 2 == 0
    requires UnitStart(c) < |input|
    ensures |c.out| + 1 > cap ==> Step(input, cap, c) == Stopped(CapacityExceeded)
    ensures |c.out| + 1 <= cap ==>
              Step(input, cap, c) ==
              Continue(Cursor(UnitStart(c) + 1, (c.phase + 1) % 8, ControlBits(input, c) / 2,
                              c.out + [input[UnitStart(c)]]))
  {
  }

  /**
   * A back-reference unit: the length nibble 0 terminates; otherwise the
   * distance is checked against the bytes produced so far, then the new total
   * against the capacity, and only then are `count` bytes copied.
   */
  lemma ReferenceUnit(input: seq<Byte>, cap: nat, c: Cursor)
    requires WellFormed(input, c) && (c.phase == 0 ==> c.ip < |input|)
    requires ControlBits(input, c) % 2 == 1
    requires UnitStart(c) + 2 <= |input|
    ensures var ip := UnitStart(c);
            var position := RefDistance(input[ip], input[ip + 1]);
            var count := RefLength(input[ip + 1]);
            && (count == 1 ==> Step(input, cap, c) == Terminated(c.out))
            && (count > 1 && position > |c.out| ==> Step(input, cap, c) == Stopped(ReferenceBeforeStart))
            && (count > 1 && position <= |c.out| && |c.out| + count > cap ==>
                  Step(input, cap, c) == Stopped(CapacityExceeded))
            && (count > 1 && position <= |c.out| && |c.out| + count <= cap ==>
                  Step(input, cap, c) ==
                  Continue(Cursor(ip + 2, (c.phase + 1) % 8, ControlBits(input, c) / 2,
                                  CopyBack(c.out, position, count))))
  {
    ReferenceEnds(input, cap, c);
    ReferenceFails(input, cap, c);
    ReferenceCopies(input, cap, c);
  }

  lemma ReferenceEnds(input: seq<Byte>, cap: nat, c: Cursor)
    requires WellFormed(input, c) && (c.phase == 0 ==> c.ip < |input|)
    requires ControlBits(input, c) % 2 == 1
    requires UnitStart(c) + 2 <= |input|
    ensures RefLength(input[UnitStart(c) + 1]) == 1 ==> Step(input, cap, c) == Terminated(c.out)
  {
  }

  lemma ReferenceFails(input: seq<Byte>, cap: nat, c: Cursor)
    requires WellFormed(input, c) && (c.phase == 0 ==> c.ip < |input|)
    requires ControlBits(input, c) % 2 == 1
    requires UnitStart(c) + 2 <= |input|
    ensures var ip := UnitStart(c);
            var position := RefDistance(input[ip], input[ip + 1]);
            var count := RefLength(input[ip + 1]);
            && (count > 1 && position > |c.out| ==> Step(input, cap, c) == Stopped(ReferenceBeforeStart))
            && (count > 1 && position <= |c.out| && |c.out| + count > cap ==>
                  Step(input, cap, c) == Stopped(CapacityExceeded))
  {
  }

  lemma ReferenceCopies(input: seq<Byte>, cap: nat, c: Cursor)
    requires WellFormed(input, c) && (c.phase == 0 ==> c.ip < |input|)
    requires ControlBits(input, c) % 2 == 1
    requires UnitStart(c) + 2 <= |input|
    ensures var ip := UnitStart(c);
            var position := RefDistance(input[ip], input[ip + 1]);
            var count := RefLength(input[ip + 1]);
            count > 1 && position <= |c.out| && |c.out| + count <= cap ==>
              Step(input, cap, c) ==
              Continue(Cursor(ip + 2, (c.phase + 1) % 8, ControlBits(input, c) / 2,
                              CopyBack(c.out, position, count)))
  {
  }

  /** Runs units until the terminator or the first failure. */
  function Run(input: seq<Byte>, cap: nat, c: Cursor): (r: Decoded)
    requires WellFormed(input, c)
    requires |c.out| <= cap
    ensures r.Ok? ==> c.out <= r.output && |r.output| <= cap
    decreases |input| - c.ip
  {
    match Step(input, cap, c)
    case Continue(next) => Run(input, cap, next)
    case Terminated(out) => Ok(out)
    case Stopped(f) => Err(f)
  }

  function DeclaredMagic(input: seq<Byte>): nat
    requires |input| >= HeaderSize
  {
    LittleEndian(input[..4])
  }

  function DeclaredSize(input: seq<Byte>): nat
    requires |input| >= HeaderSize
  {
    LittleEndian(input[4..8])
  }

  /** The entry check: right magic, non-zero size, size within the capacity. */
  predicate HeaderAccepted(input: seq<Byte>, cap: nat)
    requires |input| >= HeaderSize
  {
    DeclaredMagic(input) == Magic && DeclaredSize(input) != 0 && DeclaredSize(input) <= cap
  }

  /**
   * The whole decompression.  `cap` is the caller's `unBufSize`, an
   * `unsigned int`.  Success means the stream reached its terminator having
   * produced exactly the declared number of bytes.
   */
  function Decompress(input: seq<Byte>, cap: nat): (r: Decoded)
    requires cap < TwoTo32
    ensures |input| >= HeaderSize && !HeaderAccepted(input, cap) ==> r == Err(BadHeader)
    ensures r.Ok? ==>
              && |input| >= HeaderSize
              && HeaderAccepted(input, cap)
              && |r.output| == DeclaredSize(input)
              && 0 < |r.output| <= cap
  {
    if |input| < HeaderSize then Err(InputExhausted)
    else if !HeaderAccepted(input, cap) then Err(BadHeader)
    else
      match Run(input, cap, Cursor(HeaderSize, 0, 0, []))
      case Ok(out) => if |out| != DeclaredSize(input) then Err(SizeMismatch) else Ok(out)
      case Err(f) => Err(f)
  }

  /**
   * The value `h_CLZSS__SafeDecompress` returns: 0 for every failure, otherwise
   * the number of bytes written.  (For `InputExhausted` the source has no
   * defined result; the model reports 0.)
   */
  function SafeDecompress(input: seq<Byte>, cap: nat): (n: nat)
    requires cap < TwoTo32
    ensures n == 0 || (|input| >= HeaderSize && n == DeclaredSize(input) && n <= cap)
    ensures n != 0 <==> Decompress(input, cap).Ok?
  {
    match Decompress(input, cap)
    case Ok(out) => |out|
    case Err(_) => 0
  }
}
