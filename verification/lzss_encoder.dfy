/**
 * A reference LZSS encoder for the stream format `Lzss.Decompress` reads, and
 * the round-trip theorem: decompressing the encoding of a token list yields the
 * bytes the tokens describe.  The tokens' own meaning (`Expand`) is defined
 * independently of the decoder's byte-level control flow.
 */
module LzssEncoder {
  import opened Basics
  import opened Lzss

  /** A decoded unit: a literal byte, or `length` bytes copied from `distance` back. */
  datatype Token = Lit(b: Byte) | Ref(distance: nat, length: nat)

  /** A back-reference the two-byte format can carry (the length 1 is the end marker). */
  predicate Encodable(t: Token) {
    t.Ref? ==> 1 <= t.distance <= 4096 && 2 <= t.length <= 16
  }

  predicate Applicable(out: seq<Byte>, t: Token) {
    Encodable(t) && (t.Ref? ==> t.distance <= |out|)
  }

  /** What a token appends to the output produced so far. */
  function Apply(out: seq<Byte>, t: Token): (r: seq<Byte>)
    requires Applicable(out, t)
    ensures out < r
  {
    match t
    case Lit(b) => out + [b]
    case Ref(d, n) => CopyBack(out, d, n)
  }

  /** Every token can be carried and every reference stays inside what precedes it. */
  predicate Valid(out: seq<Byte>, ts: seq<Token>)
    decreases |ts|
  {
    |ts| == 0 || (Applicable(out, ts[0]) && Valid(Apply(out, ts[0]), ts[1..]))
  }

  function Expand(out: seq<Byte>, ts: seq<Token>): (r: seq<Byte>)
    requires Valid(out, ts)
    ensures out <= r
    decreases |ts|
  {
    if |ts| == 0 then out else Expand(Apply(out, ts[0]), ts[1..])
  }

  function TokenBytes(t: Token): (bs: seq<Byte>)
    requires Encodable(t)
  {
    match t
    case Lit(b) => [b]
    case Ref(d, n) => [(d - 1) / 16, (d - 1) % 16 * 16 + (n - 1)]
  }

  /** A back-reference with length nibble 0: the end-of-stream marker. */
  const EndMarker: seq<Byte> := [0, 0]

  function Pow2(k: nat): (p: nat)
    ensures p >= 1
  {
    if k == 0 then 1 else 2 * Pow2(k - 1)
  }

  /** The low `k` control bits for `ts` followed by the end marker (a reference, bit 1). */
  function Flags(ts: seq<Token>, k: nat): (f: nat)
    ensures f < Pow2(k)
    decreases k
  {
    if k == 0 then 0
    else if |ts| == 0 then 1
    else (if ts[0].Ref? then 1 else 0) + 2 * Flags(ts[1..], k - 1)
  }

  predicate AllEncodable(ts: seq<Token>) {
    forall i :: 0 <= i < |ts| ==> Encodable(ts[i])
  }

  /** The control byte opening a group whose first unit is `ts[0]` (or the end marker). */
  function ControlByte(ts: seq<Token>): Byte {
    assert Pow2(8) == 256;
    Flags(ts, 8)
  }

  /** The control byte emitted before a unit: present only at the start of a group. */
  function Control(ts: seq<Token>, phase: nat): seq<Byte> {
    if phase == 0 then [ControlByte(ts)] else []
  }

  /**
   * The body for `ts` and the end marker, starting at unit `phase` of a group:
   * a control byte precedes every group of eight units.
   */
  function Enc(ts: seq<Token>, phase: nat): (bs: seq<Byte>)
    requires phase < 8
    requires AllEncodable(ts)
    decreases |ts|
  {
    if |ts| == 0 then Control(ts, phase) + EndMarker
    else Control(ts, phase) + TokenBytes(ts[0]) + Enc(ts[1..], (phase + 1) % 8)
  }

  lemma ValidIsEncodable(out: seq<Byte>, ts: seq<Token>)
    requires Valid(out, ts)
    ensures AllEncodable(ts)
    decreases |ts|
  {
    if |ts| > 0 {
      ValidIsEncodable(Apply(out, ts[0]), ts[1..]);
    }
  }

  /** The complete compressed stream: header with the exact size, then the body. */
  function Compress(ts: seq<Token>): (bs: seq<Byte>)
    requires Valid([], ts)
    requires |Expand([], ts)| < TwoTo32
  {
    ValidIsEncodable([], ts);
    ToLittleEndian(Magic, 4) + ToLittleEndian(|Expand([], ts)|, 4) + Enc(ts, 0)
  }

  lemma SplitAt(input: seq<Byte>, i: nat, a: seq<Byte>, b: seq<Byte>)
    requires i + |a| + |b| <= |input|
    requires input[i..i + |a| + |b|] == a + b
    ensures input[i..i + |a|] == a
    ensures input[i + |a|..i + |a| + |b|] == b
  {
    assert input[i..i + |a|] == (a + b)[..|a|];
    assert input[i + |a|..i + |a| + |b|] == (a + b)[|a|..];
  }

  lemma ReferenceFields(d: nat, n: nat)
    requires 1 <= d <= 4096 && 2 <= n <= 16
    ensures var bs := TokenBytes(Ref(d, n));
            RefDistance(bs[0], bs[1]) == d && RefLength(bs[1]) == n
  {
    var q := (d - 1) % 16;
    assert (q * 16 + (n - 1)) / 16 == q;
    assert (q * 16 + (n - 1)) % 16 == n - 1;
  }

  /** What the decoder may assume at a unit boundary inside the encoding of `ts`. */
  ghost predicate Inside(input: seq<Byte>, cap: nat, c: Cursor, ts: seq<Token>) {
    && WellFormed(input, c)
    && Valid(c.out, ts)
    && |Expand(c.out, ts)| <= cap
    && AllEncodable(ts)
    && (c.phase > 0 ==> c.cmd == Flags(ts, 8 - c.phase))
    && c.ip + |Enc(ts, c.phase)| <= |input|
    && input[c.ip..c.ip + |Enc(ts, c.phase)|] == Enc(ts, c.phase)
  }

  /** The control bits in effect for the unit at `c`. */
  lemma ControlInHand(input: seq<Byte>, cap: nat, c: Cursor, ts: seq<Token>)
    requires Inside(input, cap, c, ts)
    ensures c.phase == 0 ==> c.ip < |input|
    ensures ControlBits(input, c) == Flags(ts, 8 - c.phase)
  {
    if c.phase == 0 {
      assert input[c.ip] == Enc(ts, c.phase)[0] == ControlByte(ts);
    }
  }

  lemma StepOverEnd(input: seq<Byte>, cap: nat, c: Cursor)
    requires Inside(input, cap, c, [])
    ensures Step(input, cap, c) == Terminated(c.out)
  {
    ControlInHand(input, cap, c, []);
    var control := Control([], c.phase);
    SplitAt(input, c.ip, control, EndMarker);
    assert UnitStart(c) == c.ip + |control|;
    ReferenceUnit(input, cap, c);
  }

  /** Where the bytes of the first token lie ... */
  lemma LayoutHead(input: seq<Byte>, i: nat, phase: nat, ts: seq<Token>, start: nat)
    requires |ts| > 0 && phase < 8 && AllEncodable(ts)
    requires i + |Enc(ts, phase)| <= |input|
    requires input[i..i + |Enc(ts, phase)|] == Enc(ts, phase)
    requires start == i + |Control(ts, phase)|
    ensures start + |TokenBytes(ts[0])| <= |input|
    ensures input[start..start + |TokenBytes(ts[0])|] == TokenBytes(ts[0])
  {
    EncCons(ts, phase);
    SplitThree(input, i, Enc(ts, phase), Control(ts, phase), TokenBytes(ts[0]), Enc(ts[1..], (phase + 1) % 8));
  }

  /** ... and where the rest of the body, at unit `next` of the group, starts. */
  lemma LayoutRest(input: seq<Byte>, i: nat, phase: nat, ts: seq<Token>, k: nat, next: nat)
    requires |ts| > 0 && phase < 8 && AllEncodable(ts)
    requires i + |Enc(ts, phase)| <= |input|
    requires input[i..i + |Enc(ts, phase)|] == Enc(ts, phase)
    requires k == i + |Control(ts, phase)| + |TokenBytes(ts[0])| && next == (phase + 1) % 8
    ensures k + |Enc(ts[1..], next)| <= |input|
    ensures input[k..k + |Enc(ts[1..], next)|] == Enc(ts[1..], next)
  {
    EncCons(ts, phase);
    SplitThree(input, i, Enc(ts, phase), Control(ts, phase), TokenBytes(ts[0]), Enc(ts[1..], next));
  }

  lemma EncCons(ts: seq<Token>, phase: nat)
    requires |ts| > 0 && phase < 8 && AllEncodable(ts)
    ensures Enc(ts, phase) == Control(ts, phase) + TokenBytes(ts[0]) + Enc(ts[1..], (phase + 1) % 8)
  {
  }

  /** The three consecutive parts of a slice. */
  lemma SplitThree(input: seq<Byte>, i: nat, w: seq<Byte>, a: seq<Byte>, b: seq<Byte>, c: seq<Byte>)
    requires i + |w| <= |input| && input[i..i + |w|] == w
    requires w == a + b + c
    ensures i + |a| + |b| + |c| <= |input|
    ensures input[i + |a|..i + |a| + |b|] == b
    ensures input[i + |a| + |b|..i + |a| + |b| + |c|] == c
  {
    SplitAt(input, i, a + b, c);
    SplitAt(input, i, a, b);
  }

  /** Consuming a unit's control bit leaves the bits of the following units. */
  lemma FlagsShift(ts: seq<Token>, k: nat)
    requires |ts| > 0 && k > 0
    ensures Flags(ts, k) % 2 == (if ts[0].Ref? then 1 else 0)
    ensures Flags(ts, k) / 2 == Flags(ts[1..], k - 1)
  {
  }

  /** The cursor the decoder reaches after the first token of `ts`. */
  function After(input: seq<Byte>, c: Cursor, ts: seq<Token>): Cursor
    requires |ts| > 0 && AllEncodable(ts)
    requires WellFormed(input, c) && (c.phase == 0 ==> c.ip < |input|)
    requires Applicable(c.out, ts[0])
  {
    Cursor(UnitStart(c) + |TokenBytes(ts[0])|, (c.phase + 1) % 8, ControlBits(input, c) / 2,
           Apply(c.out, ts[0]))
  }

  /** One token, found in place with its control bit in hand, decodes to `Apply`. */
  lemma StepOverToken(input: seq<Byte>, cap: nat, c: Cursor, t: Token)
    requires WellFormed(input, c) && (c.phase == 0 ==> c.ip < |input|)
    requires Applicable(c.out, t)
    requires ControlBits(input, c) % 2 == (if t.Ref? then 1 else 0)
    requires UnitStart(c) + |TokenBytes(t)| <= |input|
    requires input[UnitStart(c)..UnitStart(c) + |TokenBytes(t)|] == TokenBytes(t)
    requires |Apply(c.out, t)| <= cap
    ensures Step(input, cap, c) ==
            Continue(Cursor(UnitStart(c) + |TokenBytes(t)|, (c.phase + 1) % 8, ControlBits(input, c) / 2,
                            Apply(c.out, t)))
  {
    var ip := UnitStart(c);
    var head := TokenBytes(t);
    match t
    case Lit(b) => {
      assert input[ip] == head[0];
      LiteralAppendsNextByte(input, cap, c);
    }
    case Ref(d, n) => {
      assert input[ip] == head[0] && input[ip + 1] == head[1];
      ReferenceFields(d, n);
      ReferenceUnit(input, cap, c);
    }
  }

  /** What `Inside` tells about the first token of `ts`. */
  lemma FirstToken(input: seq<Byte>, cap: nat, c: Cursor, ts: seq<Token>)
    requires |ts| > 0
    requires Inside(input, cap, c, ts)
    ensures c.phase == 0 ==> c.ip < |input|
    ensures Applicable(c.out, ts[0])
    ensures ControlBits(input, c) % 2 == (if ts[0].Ref? then 1 else 0)
    ensures UnitStart(c) + |TokenBytes(ts[0])| <= |input|
    ensures input[UnitStart(c)..UnitStart(c) + |TokenBytes(ts[0])|] == TokenBytes(ts[0])
    ensures |Apply(c.out, ts[0])| <= cap
  {
    ControlInHand(input, cap, c, ts);
    FlagsShift(ts, 8 - c.phase);
    StartAfterControl(c, ts);
    LayoutHead(input, c.ip, c.phase, ts, UnitStart(c));
    ExpandPrefix(c.out, ts);
  }

  lemma ExpandPrefix(out: seq<Byte>, ts: seq<Token>)
    requires |ts| > 0 && Valid(out, ts)
    ensures Apply(out, ts[0]) <= Expand(out, ts)
  {
  }

  lemma BitsAfter(input: seq<Byte>, cap: nat, c: Cursor, ts: seq<Token>)
    requires |ts| > 0
    requires Inside(input, cap, c, ts)
    requires c.phase == 0 ==> c.ip < |input|
    ensures var next := After(input, c, ts);
            next.phase > 0 ==> next.cmd == Flags(ts[1..], 8 - next.phase)
  {
    var next := After(input, c, ts);
    if next.phase > 0 {
      assert next.phase == c.phase + 1 && next.cmd == ControlBits(input, c) / 2;
      ControlInHand(input, cap, c, ts);
      FlagsShift(ts, 8 - c.phase);
    }
  }

  lemma InsideAfter(input: seq<Byte>, cap: nat, c: Cursor, ts: seq<Token>)
    requires |ts| > 0
    requires Inside(input, cap, c, ts)
    requires c.phase == 0 ==> c.ip < |input|
    ensures Inside(input, cap, After(input, c, ts), ts[1..])
  {
    AfterFields(input, c, ts);
    BytesAfter(input, c, ts, After(input, c, ts));
    BitsAfter(input, cap, c, ts);
    ExpandAfter(c.out, ts, cap);
  }

  /** Where the next cursor points and which unit of its group it is at. */
  lemma AfterFields(input: seq<Byte>, c: Cursor, ts: seq<Token>)
    requires |ts| > 0 && AllEncodable(ts)
    requires WellFormed(input, c) && (c.phase == 0 ==> c.ip < |input|)
    requires Applicable(c.out, ts[0])
    ensures After(input, c, ts).ip == UnitStart(c) + |TokenBytes(ts[0])|
    ensures After(input, c, ts).phase == (c.phase + 1) % 8
  {
  }

  /** The rest of the body follows the first token. */
  lemma BytesAfter(input: seq<Byte>, c: Cursor, ts: seq<Token>, next: Cursor)
    requires |ts| > 0 && AllEncodable(ts)
    requires c.phase < 8
    requires c.ip + |Enc(ts, c.phase)| <= |input|
    requires input[c.ip..c.ip + |Enc(ts, c.phase)|] == Enc(ts, c.phase)
    requires next.ip == UnitStart(c) + |TokenBytes(ts[0])| && next.phase == (c.phase + 1) % 8
    ensures next.phase < 8
    ensures next.ip + |Enc(ts[1..], next.phase)| <= |input|
    ensures input[next.ip..next.ip + |Enc(ts[1..], next.phase)|] == Enc(ts[1..], next.phase)
  {
    StartAfterControl(c, ts);
    LayoutRest(input, c.ip, c.phase, ts, next.ip, next.phase);
  }

  /** The first unit begins right after the control byte, if any. */
  lemma StartAfterControl(c: Cursor, ts: seq<Token>)
    ensures UnitStart(c) == c.ip + |Control(ts, c.phase)|
  {
  }

  /** Applying the first token leaves the rest valid, with the same expansion. */
  lemma ExpandAfter(out: seq<Byte>, ts: seq<Token>, cap: nat)
    requires |ts| > 0 && Valid(out, ts) && |Expand(out, ts)| <= cap
    ensures Valid(Apply(out, ts[0]), ts[1..]) && |Expand(Apply(out, ts[0]), ts[1..])| <= cap
  {
  }

  /**
   * The decoder, started anywhere inside the encoding of `ts` with the matching
   * control bits in hand, produces exactly the expansion of `ts`.
   */
  lemma {:induction false} DecodesEncoding(input: seq<Byte>, cap: nat, c: Cursor, ts: seq<Token>)
    requires Inside(input, cap, c, ts)
    ensures Run(input, cap, c) == Ok(Expand(c.out, ts))
    decreases |ts|
  {
    if |ts| == 0 {
      StepOverEnd(input, cap, c);
    } else {
      FirstToken(input, cap, c, ts);
      StepOverToken(input, cap, c, ts[0]);
      InsideAfter(input, cap, c, ts);
      DecodesEncoding(input, cap, After(input, c, ts), ts[1..]);
    }
  }

  /**
   * Round trip: for any token list whose references stay inside the data and
   * whose expansion fits the capacity, decompression of the encoder's stream
   * returns exactly the expansion, and the return value is its length.
   */
  lemma RoundTrip(ts: seq<Token>, cap: nat)
    requires Valid([], ts)
    requires 0 < |Expand([], ts)| <= cap < TwoTo32
    ensures Decompress(Compress(ts), cap) == Ok(Expand([], ts))
    ensures SafeDecompress(Compress(ts), cap) == |Expand([], ts)|
  {
    ValidIsEncodable([], ts);
    var magic := ToLittleEndian(Magic, 4);
    var size := ToLittleEndian(|Expand([], ts)|, 4);
    var input := Compress(ts);
    assert input == magic + size + Enc(ts, 0);
    assert input[..4] == magic;
    assert input[4..8] == size;
    assert input[8..8 + |Enc(ts, 0)|] == Enc(ts, 0);
    DecodesEncoding(input, cap, Cursor(HeaderSize, 0, 0, []), ts);
  }

  /**
   * Header {magic, size 4} and four literal units 'A' 'B' 'C' 'D' followed by
   * the terminator: the call returns 4 and the output is "ABCD".
   */
  lemma FourLiterals()
    ensures var ts := [Lit(65), Lit(66), Lit(67), Lit(68)];
            && Valid([], ts)
            && Expand([], ts) == [65, 66, 67, 68]
            && Decompress(Compress(ts), 4) == Ok([65, 66, 67, 68])
  {
    var ts := [Lit(65), Lit(66), Lit(67), Lit(68)];
    var t1, t2, t3 := ts[1..], ts[2..], ts[3..];
    assert t1[1..] == t2 && t2[1..] == t3 && t3[1..] == [];
    assert [] + [65] == [65] && [65] + [66] == [65, 66];
    assert [65, 66] + [67] == [65, 66, 67] && [65, 66, 67] + [68] == [65, 66, 67, 68];
    assert Expand([65, 66, 67], t3) == [65, 66, 67, 68];
    assert Expand([65, 66], t2) == [65, 66, 67, 68];
    assert Expand([65], t1) == [65, 66, 67, 68];
    assert Expand([], ts) == [65, 66, 67, 68];
    RoundTrip(ts, 4);
  }

  /**
   * A literal followed by a back-reference of distance 1 and length 16 yields
   * the byte seventeen times: the copy reads what it has just written.
   */
  lemma RunOfSeventeen(b: Byte)
    ensures var ts := [Lit(b), Ref(1, 16)];
            && Valid([], ts)
            && Expand([], ts) == seq(17, _ => b)
            && Decompress(Compress(ts), 17) == Ok(seq(17, _ => b))
  {
    var ts := [Lit(b), Ref(1, 16)];
    var r := CopyBack([b], 1, 16);
    assert ts[1..] == [Ref(1, 16)] && ts[1..][1..] == [];
    assert Expand([b], ts[1..]) == r;
    assert [] + [b] == [b];
    assert Expand([], ts) == r;
    CopyBackRepeatsLastByte([b], 16);
    assert r == seq(17, _ => b);
    RoundTrip(ts, 17);
  }
}
