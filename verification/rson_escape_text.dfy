/**
 * The writer's side of the escapes `RsonEscape.DecodeUnit` reads: JSON string
 * escapes (section 7 of RFC 8259) and UTF-16 surrogate pairs (section 2.1 of
 * RFC 2781).  Decoding what these produce gives back the original bytes, the
 * original BMP code unit, and, for a supplementary code point, the point minus
 * 0x10000 (the routine leaves out the plane offset of section 2.2).
 */
module RsonEscapeText {
  import opened Basics
  import opened RsonEscape

  /** Bytes the writer leaves as they are. */
  predicate Plain(b: bv8) {
    b !in {0x0A, 0x09, 0x0D, 0x08, 0x0C, Backslash, Quote}
  }

  /** The letter after the backslash in the escape of a byte that is not plain. */
  function EscapeLetter(b: bv8): bv8 {
    if b == 0x0A then 'n' as bv8
    else if b == 0x09 then 't' as bv8
    else if b == 0x0D then 'r' as bv8
    else if b == 0x08 then 'b' as bv8
    else if b == 0x0C then 'f' as bv8
    else b
  }

  /** The escape a JSON writer emits for one byte of text. */
  function EscapeByte(b: bv8): (e: seq<bv8>)
  {
    if Plain(b) then [b] else [Backslash, EscapeLetter(b)]
  }

  function EscapeText(s: seq<bv8>): (e: seq<bv8>)
  {
    if |s| == 0 then [] else EscapeByte(s[0]) + EscapeText(s[1..])
  }

  /** Escaping at most doubles a text and never shortens it. */
  lemma {:induction false} EscapeTextLength(s: seq<bv8>)
    ensures |s| <= |EscapeText(s)| <= 2 * |s|
    decreases |s|
  {
    if |s| > 0 {
      EscapeTextLength(s[1..]);
    }
  }

  /** Bytes copied through unchanged. */
  function Raws(s: seq<bv8>): (us: seq<Unit>)
    ensures |us| == |s|
    ensures forall i :: 0 <= i < |s| ==> us[i] == Raw(s[i])
  {
    if |s| == 0 then [] else [Raw(s[0])] + Raws(s[1..])
  }

  lemma EscapeByteShape(b: bv8)
    ensures Plain(b) ==> EscapeByte(b) == [b]
    ensures !Plain(b) ==>
              && |EscapeByte(b)| == 2 && EscapeByte(b)[0] == Backslash
              && EscapeByte(b)[1] != 'u' as bv8 && Unescape(EscapeByte(b)[1]) == b
  {
  }

  /** Each escape decodes to the byte it stands for, and nothing else. */
  lemma DecodesEscapedByte(mem: seq<bv8>, p: nat, b: bv8)
    requires At(mem, p, EscapeByte(b))
    ensures DecodeUnit(mem, p) == Emit(Raw(b), p + |EscapeByte(b)|)
  {
    var e := EscapeByte(b);
    EscapeByteShape(b);
    assert mem[p] == e[0];
    if !Plain(b) {
      assert mem[p + 1] == e[1];
    }
  }

  /** One turn of the scan loop over a unit that decodes. */
  lemma ScanEnds(mem: seq<bv8>, p: nat, end: nat, acc: seq<Unit>, u: Unit)
    requires p < |mem| && DecodeUnit(mem, p) == Emit(u, end)
    ensures ScanFrom(mem, p, end, acc) == Scan(RangeEnd, acc + [u])
  {
  }

  lemma ScanContinues(mem: seq<bv8>, p: nat, end: int, acc: seq<Unit>, u: Unit, next: nat, rest: seq<Unit>)
    requires p < |mem| && DecodeUnit(mem, p) == Emit(u, next) && next != end
    requires ScanFrom(mem, next, end, acc + [u]) == Scan(RangeEnd, acc + [u] + rest)
    ensures ScanFrom(mem, p, end, acc) == Scan(RangeEnd, acc + ([u] + rest))
  {
    AppendAssociates(acc, [u], rest);
  }

  /** An escaped text in memory starts with the escape of its first byte ... */
  lemma EscapedHeadAt(mem: seq<bv8>, p: nat, s: seq<bv8>)
    requires |s| > 0
    requires At(mem, p, EscapeText(s))
    ensures At(mem, p, EscapeByte(s[0]))
  {
    EscapeTextCons(s);
    AtParts(mem, p, EscapeText(s), EscapeByte(s[0]), EscapeText(s[1..]));
  }

  /** ... which the escape of the rest follows. */
  lemma EscapedTailAt(mem: seq<bv8>, p: nat, s: seq<bv8>)
    requires |s| > 0
    requires At(mem, p, EscapeText(s))
    ensures At(mem, p + |EscapeByte(s[0])|, EscapeText(s[1..]))
  {
    EscapeTextCons(s);
    AtParts(mem, p, EscapeText(s), EscapeByte(s[0]), EscapeText(s[1..]));
  }

  lemma EscapeTextCons(s: seq<bv8>)
    requires |s| > 0
    ensures EscapeText(s) == EscapeByte(s[0]) + EscapeText(s[1..])
  {
  }

  lemma RawsCons(s: seq<bv8>)
    requires |s| > 0
    ensures Raws(s) == [Raw(s[0])] + Raws(s[1..])
  {
  }

  /**
   * Scanning an escaped text whose range ends right after it emits exactly the
   * original bytes and ends at the range end.
   */
  lemma {:induction false} ScansEscapedText(mem: seq<bv8>, p: nat, end: int, s: seq<bv8>, acc: seq<Unit>)
    requires |s| > 0
    requires At(mem, p, EscapeText(s)) && end == p + |EscapeText(s)|
    ensures ScanFrom(mem, p, end, acc) == Scan(RangeEnd, acc + Raws(s))
    decreases |s|
  {
    EscapedHeadAt(mem, p, s);
    EscapedTailAt(mem, p, s);
    DecodesEscapedByte(mem, p, s[0]);
    RawsCons(s);
    var next := p + |EscapeByte(s[0])|;
    if |s| == 1 {
      assert Raws(s[1..]) == [];
      ScanEnds(mem, p, end, acc, Raw(s[0]));
    } else {
      ScansEscapedText(mem, next, end, s[1..], acc + [Raw(s[0])]);
      ScanContinues(mem, p, end, acc, Raw(s[0]), next, Raws(s[1..]));
    }
  }

  /** Past the count test, the routine is the scan of the range inside the delimiters. */
  lemma CheckScansRange(mem: seq<bv8>, base: nat, span: Span)
    requires span.count > 2
    ensures CheckUtf8Valid(mem, base, span)
         == ScanFrom(mem, base + span.offset + 1, base + span.offset + span.length - 1, [])
  {
  }

  /**
   * Round trip through the whole routine: a descriptor whose range covers an
   * escaped text (plus the two delimiting bytes the routine skips) decodes to
   * the original text, and the routine returns true.
   */
  lemma EscapedStringRoundTrip(mem: seq<bv8>, base: nat, span: Span, s: seq<bv8>)
    requires |s| > 0
    requires span.count > 2
    requires span.length == |EscapeText(s)| + 2
    requires At(mem, base + span.offset + 1, EscapeText(s))
    ensures CheckUtf8Valid(mem, base, span) == Scan(RangeEnd, Raws(s))
    ensures Returned(CheckUtf8Valid(mem, base, span))
  {
    CheckScansEscapedText(mem, base, span, s);
  }

  lemma CheckScansEscapedText(mem: seq<bv8>, base: nat, span: Span, s: seq<bv8>)
    requires |s| > 0
    requires span.count > 2
    requires span.length == |EscapeText(s)| + 2
    requires At(mem, base + span.offset + 1, EscapeText(s))
    ensures CheckUtf8Valid(mem, base, span) == Scan(RangeEnd, Raws(s))
  {
    var p := base + span.offset + 1;
    var end := p + |EscapeText(s)|;
    ScansEscapedFromStart(mem, p, end, s);
    CheckScansAfter(mem, base, span, p, end, Scan(RangeEnd, Raws(s)));
  }

  /** The routine's result past the count test is the range scan's result. */
  lemma CheckScansTo(mem: seq<bv8>, base: nat, span: Span, r: Scan)
    requires span.count > 2
    requires ScanFrom(mem, base + span.offset + 1, base + span.offset + span.length - 1, []) == r
    ensures CheckUtf8Valid(mem, base, span) == r
  {
    CheckScansRange(mem, base, span);
  }

  /** The routine's result is the scan from the first byte inside the delimiters to the last. */
  lemma CheckScansAfter(mem: seq<bv8>, base: nat, span: Span, p: nat, end: int, r: Scan)
    requires span.count > 2
    requires p == base + span.offset + 1 && end == base + span.offset + span.length - 1
    requires ScanFrom(mem, p, end, []) == r
    ensures CheckUtf8Valid(mem, base, span) == r
  {
    CheckScansTo(mem, base, span, r);
  }

  /** The scan from the first escaped byte, with nothing emitted before it. */
  lemma ScansEscapedFromStart(mem: seq<bv8>, p: nat, end: int, s: seq<bv8>)
    requires |s| > 0
    requires At(mem, p, EscapeText(s)) && end == p + |EscapeText(s)|
    ensures ScanFrom(mem, p, end, []) == Scan(RangeEnd, Raws(s))
  {
    ScansEscapedText(mem, p, end, s, []);
    AppendEmpty(Raws(s));
  }

  /** The digit a writer emits for a nibble, in either case. */
  function HexChar(d: bv32, upper: bool): bv8
    requires d < 16
  {
    if d < 10 then (0x30 + d) as bv8
    else if upper then (0x41 + d - 10) as bv8
    else (0x61 + d - 10) as bv8
  }

  function HexDigits(v: bv32, upper: bool): (ds: seq<bv8>)
    requires v < 0x1_0000
    ensures |ds| == 4
  {
    [HexChar((v >> 12) & 0xF, upper), HexChar((v >> 8) & 0xF, upper),
     HexChar((v >> 4) & 0xF, upper), HexChar(v & 0xF, upper)]
  }

  lemma HexCharDecodes(d: bv32, upper: bool)
    requires d < 16
    ensures HexDigit(HexChar(d, upper)) == d
  {
  }

  /** Four hex digits in either case decode to the 16-bit value they spell. */
  lemma HexDigitsRoundTrip(v: bv32, upper: bool)
    requires v < 0x1_0000
    ensures Hex4(HexDigits(v, upper)) == v
  {
    HexCharDecodes((v >> 12) & 0xF, upper);
    HexCharDecodes((v >> 8) & 0xF, upper);
    HexCharDecodes((v >> 4) & 0xF, upper);
    HexCharDecodes(v & 0xF, upper);
  }

  /** Digits differing only in bit 5 (the ASCII case bit) decode alike. */
  lemma HexDigitIgnoresCase(c: bv8)
    ensures HexDigit(c) == HexDigit(c | 0x20)
  {
  }

  /** `\uXXXX` for a 16-bit code unit. */
  function UnicodeEscape(v: bv32, upper: bool): (e: seq<bv8>)
    requires v < 0x1_0000
    ensures |e| == 6
  {
    [Backslash, 'u' as bv8] + HexDigits(v, upper)
  }

  lemma UnicodeEscapeFields(mem: seq<bv8>, p: nat, v: bv32, upper: bool)
    requires v < 0x1_0000
    requires At(mem, p, UnicodeEscape(v, upper))
    ensures mem[p] == Backslash && mem[p + 1] == 'u' as bv8
    ensures Hex4(mem[p + 2..p + 6]) == v
  {
    var e := UnicodeEscape(v, upper);
    assert mem[p] == e[0] && mem[p + 1] == e[1];
    assert mem[p + 2..p + 6] == e[2..6] == HexDigits(v, upper);
    HexDigitsRoundTrip(v, upper);
  }

  predicate IsSurrogate(v: bv32) { 0xD800 <= v <= 0xDFFF }

  /** A code unit outside the surrogate range is handed to the encoder as is. */
  lemma DecodesBmpEscape(mem: seq<bv8>, p: nat, v: bv32, upper: bool)
    requires v < 0x1_0000 && !IsSurrogate(v)
    requires At(mem, p, UnicodeEscape(v, upper))
    ensures DecodeUnit(mem, p) == Emit(Encoded(v), p + 6)
  {
    UnicodeEscapeFields(mem, p, v, upper);
  }

  /** UTF-16 halves of a supplementary code point (section 2.1 of RFC 2781). */
  function HighSurrogate(cp: bv32): bv32
    requires 0x1_0000 <= cp <= 0x10_FFFF
  {
    0xD800 + ((cp - 0x1_0000) >> 10)
  }

  function LowSurrogate(cp: bv32): bv32
    requires 0x1_0000 <= cp <= 0x10_FFFF
  {
    0xDC00 + ((cp - 0x1_0000) & 0x3FF)
  }

  /** The pair combination of section 2.2 of RFC 2781. */
  function StandardCombine(hi: bv32, lo: bv32): bv32 {
    0x1_0000 + ((hi - 0xD800) << 10) + (lo - 0xDC00)
  }

  /** The routine's combination is the standard one minus the plane offset 0x10000. */
  lemma CombinationMissesPlaneOffset(hi: bv32, lo: bv32)
    requires 0xD800 <= hi <= 0xDBFF && 0xDC00 <= lo <= 0xDFFF
    ensures CombineAsWritten(hi, lo - 0xDC00) + 0x1_0000 == StandardCombine(hi, lo)
  {
  }

  /** The halves are a high and a low surrogate, and both combinations recover the point. */
  lemma HighHalf(cp: bv32)
    requires 0x1_0000 <= cp <= 0x10_FFFF
    ensures 0xD800 <= HighSurrogate(cp) <= 0xDBFF
  {
  }

  lemma LowHalf(cp: bv32)
    requires 0x1_0000 <= cp <= 0x10_FFFF
    ensures 0xDC00 <= LowSurrogate(cp) <= 0xDFFF
  {
  }

  lemma HalvesCombineAsWritten(cp: bv32)
    requires 0x1_0000 <= cp <= 0x10_FFFF
    ensures CombineAsWritten(HighSurrogate(cp), LowSurrogate(cp) - 0xDC00) == cp - 0x1_0000
  {
  }

  lemma HalvesCombine(cp: bv32)
    requires 0x1_0000 <= cp <= 0x10_FFFF
    ensures StandardCombine(HighSurrogate(cp), LowSurrogate(cp)) == cp
  {
  }

  /** A high and a low surrogate escape in a row decode as one combined value. */
  lemma DecodesPairFields(mem: seq<bv8>, p: nat, hi: bv32, lo: bv32)
    requires p + 12 <= |mem|
    requires mem[p] == Backslash && mem[p + 1] == 'u' as bv8 && Hex4(mem[p + 2..p + 6]) == hi
    requires mem[p + 6] == Backslash && mem[p + 7] == 'u' as bv8 && Hex4(mem[p + 8..p + 12]) == lo
    requires 0xD800 <= hi <= 0xDBFF && 0xDC00 <= lo <= 0xDFFF
    ensures DecodeUnit(mem, p) == Emit(Encoded(CombineAsWritten(hi, lo - 0xDC00)), p + 12)
  {
  }

  lemma DecodesPairEscapes(mem: seq<bv8>, p: nat, hi: bv32, lo: bv32, upper: bool)
    requires 0xD800 <= hi <= 0xDBFF && 0xDC00 <= lo <= 0xDFFF
    requires At(mem, p, UnicodeEscape(hi, upper) + UnicodeEscape(lo, upper))
    ensures DecodeUnit(mem, p) == Emit(Encoded(CombineAsWritten(hi, lo - 0xDC00)), p + 12)
  {
    AtParts(mem, p, UnicodeEscape(hi, upper) + UnicodeEscape(lo, upper), UnicodeEscape(hi, upper), UnicodeEscape(lo, upper));
    UnicodeEscapeFields(mem, p, hi, upper);
    UnicodeEscapeFields(mem, p + 6, lo, upper);
    DecodesPairFields(mem, p, hi, lo);
  }

  /**
   * A supplementary code point written as a surrogate pair reaches the encoder
   * as the point minus 0x10000, and the cursor moves past both escapes.
   */
  lemma DecodesSurrogatePair(mem: seq<bv8>, p: nat, cp: bv32, upper: bool)
    requires 0x1_0000 <= cp <= 0x10_FFFF
    requires At(mem, p, UnicodeEscape(HighSurrogate(cp), upper) + UnicodeEscape(LowSurrogate(cp), upper))
    ensures DecodeUnit(mem, p) == Emit(Encoded(cp - 0x1_0000), p + 12)
  {
    HighHalf(cp);
    LowHalf(cp);
    HalvesCombineAsWritten(cp);
    DecodesPairEscapes(mem, p, HighSurrogate(cp), LowSurrogate(cp), upper);
  }

  /** An unpaired low surrogate ends the scan with `true`. */
  lemma LoneLowSurrogateReturnsTrue(mem: seq<bv8>, p: nat, v: bv32, upper: bool)
    requires 0xDC00 <= v <= 0xDFFF
    requires At(mem, p, UnicodeEscape(v, upper))
    ensures DecodeUnit(mem, p) == Reject(LoneLowSurrogate)
    ensures forall end, acc :: ScanFrom(mem, p, end, acc) == Scan(LoneLowSurrogate, acc)
    ensures forall end, acc :: Returned(ScanFrom(mem, p, end, acc))
  {
    UnicodeEscapeFields(mem, p, v, upper);
  }

  /** A high surrogate whose next two bytes are not `\u` ends the scan with `true`. */
  lemma HighWithoutEscapeReturnsTrue(mem: seq<bv8>, p: nat, v: bv32, upper: bool)
    requires 0xD800 <= v <= 0xDBFF
    requires At(mem, p, UnicodeEscape(v, upper))
    requires p + 7 < |mem|
    requires mem[p + 6] != Backslash || mem[p + 7] != 'u' as bv8
    ensures DecodeUnit(mem, p) == Reject(HighWithoutEscape)
    ensures forall end, acc :: ScanFrom(mem, p, end, acc) == Scan(HighWithoutEscape, acc)
    ensures forall end, acc :: Returned(ScanFrom(mem, p, end, acc))
  {
    UnicodeEscapeFields(mem, p, v, upper);
  }

  /** A high surrogate followed by `\u` and a non-low unit ends the scan with `true`. */
  lemma HighWithoutLowReturnsTrue(mem: seq<bv8>, p: nat, v: bv32, w: bv32, upper: bool)
    requires 0xD800 <= v <= 0xDBFF
    requires w < 0x1_0000 && !(0xDC00 <= w <= 0xDFFF)
    requires At(mem, p, UnicodeEscape(v, upper) + UnicodeEscape(w, upper))
    ensures DecodeUnit(mem, p) == Reject(HighWithoutLow)
    ensures forall end, acc :: ScanFrom(mem, p, end, acc) == Scan(HighWithoutLow, acc)
    ensures forall end, acc :: Returned(ScanFrom(mem, p, end, acc))
  {
    AtParts(mem, p, UnicodeEscape(v, upper) + UnicodeEscape(w, upper), UnicodeEscape(v, upper), UnicodeEscape(w, upper));
    UnicodeEscapeFields(mem, p, v, upper);
    UnicodeEscapeFields(mem, p + 6, w, upper);
  }

  /* ----- text mixing plain bytes and `\u` escapes ----- */

  /**
   * One piece of a string as a JSON writer may spell it: a byte with the
   * escapes above, a non-surrogate code unit as `\uXXXX`, or a high and a
   * low surrogate as two `\u` escapes (the halves of a supplementary code
   * point, see `HighSurrogate` and `LowSurrogate`).
   */
  datatype Piece = Byte(b: bv8) | Bmp(v: bv32, upper: bool) | Pair(hi: bv32, lo: bv32, upper: bool)

  predicate ValidPiece(x: Piece) {
    match x
    case Byte(_) => true
    case Bmp(v, _) => v < 0x1_0000 && !IsSurrogate(v)
    case Pair(hi, lo, _) => 0xD800 <= hi <= 0xDBFF && 0xDC00 <= lo <= 0xDFFF
  }

  predicate ValidPieces(xs: seq<Piece>) {
    forall i :: 0 <= i < |xs| ==> ValidPiece(xs[i])
  }

  function WritePiece(x: Piece): (e: seq<bv8>)
    requires ValidPiece(x)
    ensures |e| > 0
  {
    match x
    case Byte(b) => EscapeByte(b)
    case Bmp(v, upper) => UnicodeEscape(v, upper)
    case Pair(hi, lo, upper) => UnicodeEscape(hi, upper) + UnicodeEscape(lo, upper)
  }

  function WritePieces(xs: seq<Piece>): seq<bv8>
    requires ValidPieces(xs)
  {
    if |xs| == 0 then [] else WritePiece(xs[0]) + WritePieces(xs[1..])
  }

  /**
   * The unit the routine is meant to hand on for a piece: the byte itself, or
   * the code value for the encoder, which for a pair is the combination at
   * parser.cpp line 139 (the point minus 0x10000, `HalvesCombineAsWritten`).
   */
  function PieceUnit(x: Piece): Unit
    requires ValidPiece(x)
  {
    match x
    case Byte(b) => Raw(b)
    case Bmp(v, _) => Encoded(v)
    case Pair(hi, lo, _) => Encoded(CombineAsWritten(hi, lo - 0xDC00))
  }

  function PieceUnits(xs: seq<Piece>): (us: seq<Unit>)
    requires ValidPieces(xs)
    ensures |us| == |xs|
    ensures forall i :: 0 <= i < |xs| ==> us[i] == PieceUnit(xs[i])
  {
    if |xs| == 0 then [] else [PieceUnit(xs[0])] + PieceUnits(xs[1..])
  }

  /** Each piece decodes to its unit, with the cursor right after its spelling. */
  lemma DecodesPiece(mem: seq<bv8>, p: nat, x: Piece)
    requires ValidPiece(x) && At(mem, p, WritePiece(x))
    ensures DecodeUnit(mem, p) == Emit(PieceUnit(x), p + |WritePiece(x)|)
  {
    if x.Byte? {
      DecodesBytePiece(mem, p, x);
    } else if x.Bmp? {
      DecodesBmpPiece(mem, p, x);
    } else {
      DecodesPairPiece(mem, p, x);
    }
  }

  lemma DecodesBytePiece(mem: seq<bv8>, p: nat, x: Piece)
    requires x.Byte? && At(mem, p, WritePiece(x))
    ensures DecodeUnit(mem, p) == Emit(PieceUnit(x), p + |WritePiece(x)|)
  {
    DecodesEscapedByte(mem, p, x.b);
  }

  lemma DecodesBmpPiece(mem: seq<bv8>, p: nat, x: Piece)
    requires x.Bmp? && ValidPiece(x) && At(mem, p, WritePiece(x))
    ensures DecodeUnit(mem, p) == Emit(PieceUnit(x), p + |WritePiece(x)|)
  {
    DecodesBmpEscape(mem, p, x.v, x.upper);
  }

  lemma DecodesPairPiece(mem: seq<bv8>, p: nat, x: Piece)
    requires x.Pair? && ValidPiece(x) && At(mem, p, WritePiece(x))
    ensures DecodeUnit(mem, p) == Emit(PieceUnit(x), p + |WritePiece(x)|)
  {
    DecodesPairEscapes(mem, p, x.hi, x.lo, x.upper);
  }

  lemma WritePiecesCons(xs: seq<Piece>)
    requires |xs| > 0 && ValidPieces(xs)
    ensures ValidPieces(xs[1..])
    ensures WritePieces(xs) == WritePiece(xs[0]) + WritePieces(xs[1..])
  {
  }

  /** Memory holding written pieces holds the first piece, then the rest. */
  lemma PiecesAt(mem: seq<bv8>, p: nat, xs: seq<Piece>)
    requires |xs| > 0 && ValidPieces(xs)
    requires At(mem, p, WritePieces(xs))
    ensures ValidPieces(xs[1..])
    ensures At(mem, p, WritePiece(xs[0]))
    ensures At(mem, p + |WritePiece(xs[0])|, WritePieces(xs[1..]))
  {
    WritePiecesCons(xs);
    var head, rest := WritePiece(xs[0]), WritePieces(xs[1..]);
    AtParts(mem, p, WritePieces(xs), head, rest);
  }

  lemma PieceUnitsCons(xs: seq<Piece>)
    requires |xs| > 0 && ValidPieces(xs)
    ensures ValidPieces(xs[1..])
    ensures PieceUnits(xs) == [PieceUnit(xs[0])] + PieceUnits(xs[1..])
  {
  }

  /**
   * Scanning a string written from pieces, whose range ends right after it,
   * emits exactly one unit per piece and ends at the range end.
   */
  lemma {:induction false} ScansPieces(mem: seq<bv8>, p: nat, end: int, xs: seq<Piece>, acc: seq<Unit>)
    requires |xs| > 0 && ValidPieces(xs)
    requires At(mem, p, WritePieces(xs)) && end == p + |WritePieces(xs)|
    ensures ScanFrom(mem, p, end, acc) == Scan(RangeEnd, acc + PieceUnits(xs))
    decreases |xs|
  {
    PiecesAt(mem, p, xs);
    WritePiecesCons(xs);
    DecodesPiece(mem, p, xs[0]);
    PieceUnitsCons(xs);
    var next := p + |WritePiece(xs[0])|;
    if |xs| == 1 {
      assert PieceUnits(xs[1..]) == [];
      ScanEnds(mem, p, end, acc, PieceUnit(xs[0]));
    } else {
      assert |WritePieces(xs[1..])| > 0 by {
        WritePiecesCons(xs[1..]);
      }
      ScansPieces(mem, next, end, xs[1..], acc + [PieceUnit(xs[0])]);
      ScanContinues(mem, p, end, acc, PieceUnit(xs[0]), next, PieceUnits(xs[1..]));
    }
  }

  lemma ScansPiecesFromStart(mem: seq<bv8>, p: nat, end: int, xs: seq<Piece>)
    requires |xs| > 0 && ValidPieces(xs)
    requires At(mem, p, WritePieces(xs)) && end == p + |WritePieces(xs)|
    ensures ScanFrom(mem, p, end, []) == Scan(RangeEnd, PieceUnits(xs))
  {
    ScansPieces(mem, p, end, xs, []);
    AppendEmpty(PieceUnits(xs));
  }

  /**
   * Round trip through the whole routine for strings that mix plain bytes,
   * one-letter escapes, `\uXXXX` escapes and surrogate pairs: the routine
   * returns true and emits one unit per piece, in order.
   */
  lemma PiecesRoundTrip(mem: seq<bv8>, base: nat, span: Span, xs: seq<Piece>)
    requires |xs| > 0 && ValidPieces(xs)
    requires span.count > 2
    requires span.length == |WritePieces(xs)| + 2
    requires At(mem, base + span.offset + 1, WritePieces(xs))
    ensures CheckUtf8Valid(mem, base, span) == Scan(RangeEnd, PieceUnits(xs))
    ensures Returned(CheckUtf8Valid(mem, base, span))
  {
    CheckScansPieces(mem, base, span, xs);
  }

  lemma CheckScansPieces(mem: seq<bv8>, base: nat, span: Span, xs: seq<Piece>)
    requires |xs| > 0 && ValidPieces(xs)
    requires span.count > 2
    requires span.length == |WritePieces(xs)| + 2
    requires At(mem, base + span.offset + 1, WritePieces(xs))
    ensures CheckUtf8Valid(mem, base, span) == Scan(RangeEnd, PieceUnits(xs))
  {
    var p := base + span.offset + 1;
    var end := p + |WritePieces(xs)|;
    ScansPiecesFromStart(mem, p, end, xs);
    CheckScansAfter(mem, base, span, p, end, Scan(RangeEnd, PieceUnits(xs)));
  }

  /** The destination holds exactly the bytes of a text that decoded to raw units. */
  lemma {:induction false} DestinationOfRaws(s: seq<bv8>, encode: bv32 -> seq<bv8>)
    requires forall v :: 1 <= |encode(v)| <= 4
    ensures Destination(Raws(s), encode) == s
    decreases |s|
  {
    if |s| > 0 {
      assert Raws(s)[1..] == Raws(s[1..]);
      DestinationOfRaws(s[1..], encode);
      assert s == [s[0]] + s[1..];
    }
  }

  /**
   * On the network call site, a well-formed escaped string passes the gate and
   * the engine's own result is returned.
   */
  lemma HookPassesEscapedText(mem: seq<bv8>, base: nat, span: Span, s: seq<bv8>, original: bool)
    requires |s| > 0
    requires span.count > 2
    requires span.length == |EscapeText(s)| + 2
    requires At(mem, base + span.offset + 1, EscapeText(s))
    ensures CheckUtf8Valid(mem, base, span).exit == RangeEnd
    ensures ParseUtf8Hook(mem, base, span, true, original) == original
  {
    EscapedStringRoundTrip(mem, base, span, s);
  }

  /** `\t\n` decodes to a tab and a newline. */
  lemma TabNewlineExample()
    ensures ScanFrom([0x5C, 0x74, 0x5C, 0x6E], 0, 4, []) == Scan(RangeEnd, [Raw(0x09), Raw(0x0A)])
  {
    var mem: seq<bv8> := [0x5C, 0x74, 0x5C, 0x6E];
    assert EscapeText([0x09, 0x0A]) == mem by {
      assert EscapeText([0x0A]) == [0x5C, 0x6E] by {
        assert [0x0A][1..] == [];
      }
      assert [0x09, 0x0A][1..] == [0x0A];
    }
    assert mem[0..4] == mem;
    ScansEscapedText(mem, 0, 4, [0x09, 0x0A], []);
    assert Raws([0x09, 0x0A]) == [Raw(0x09), Raw(0x0A)] by {
      assert [0x09, 0x0A][1..] == [0x0A];
      assert [0x0A][1..] == [];
    }
  }

  /** `\u0041` reaches the encoder as 0x41. */
  lemma LetterAExample()
    ensures DecodeUnit([0x5C, 0x75, 0x30, 0x30, 0x34, 0x31], 0) == Emit(Encoded(0x41), 6)
  {
    var mem: seq<bv8> := [0x5C, 0x75, 0x30, 0x30, 0x34, 0x31];
    assert UnicodeEscape(0x41, true) == mem;
    assert mem[0..6] == mem;
    DecodesBmpEscape(mem, 0, 0x41, true);
  }

  /** `\uD83D\uDE00` (U+1F600) reaches the encoder as 0xF600. */
  lemma EmojiExample()
    ensures DecodeUnit([0x5C, 0x75, 0x44, 0x38, 0x33, 0x44, 0x5C, 0x75, 0x44, 0x45, 0x30, 0x30], 0)
         == Emit(Encoded(0xF600), 12)
  {
    var mem: seq<bv8> := [0x5C, 0x75, 0x44, 0x38, 0x33, 0x44, 0x5C, 0x75, 0x44, 0x45, 0x30, 0x30];
    assert HighSurrogate(0x1_F600) == 0xD83D && LowSurrogate(0x1_F600) == 0xDE00;
    assert UnicodeEscape(0xD83D, true) + UnicodeEscape(0xDE00, true) == mem;
    assert mem[0..12] == mem;
    DecodesSurrogatePair(mem, 0, 0x1_F600, true);
  }

  /** Upper, lower and mixed case spell the same value. */
  lemma MixedCaseExample()
    ensures Hex4([0x30, 0x30, 0x41, 0x42]) == 0xAB
    ensures Hex4([0x30, 0x30, 0x61, 0x62]) == 0xAB
    ensures Hex4([0x30, 0x30, 0x41, 0x62]) == 0xAB
  {
  }

  /**
   * A range end that falls inside an escape is stepped over; the scan runs on
   * to the end of readable memory and the routine returns false.
   */
  lemma OvershotEndExample()
    ensures ScanFrom([0x5C, 0x74, 0x78], 0, 1, []) == Scan(Unreadable, [Raw(0x09), Raw(0x78)])
    ensures !Returned(ScanFrom([0x5C, 0x74, 0x78], 0, 1, []))
  {
    var mem: seq<bv8> := [0x5C, 0x74, 0x78];
    assert DecodeUnit(mem, 0) == Emit(Raw(0x09), 2);
    assert DecodeUnit(mem, 2) == Emit(Raw(0x78), 3);
    assert ScanFrom(mem, 3, 1, [Raw(0x09), Raw(0x78)]) == Scan(Unreadable, [Raw(0x09), Raw(0x78)]);
    assert ScanFrom(mem, 2, 1, [Raw(0x09)]) == Scan(Unreadable, [Raw(0x09), Raw(0x78)]);
  }
}
