/**
 Base64 as RFC 4648 section 4 defines it, and the resumable encoder and decoder as state machines
 that take one byte at a time.
 */
module Base64 {
  import opened Bytes

  // ---- The alphabet (RFC 4648, table 1) ----

  type sextet = v: int | 0 <= v < 64

  function Symbol(v: sextet): byte {
    if v < 26 then 0x41 + v
    else if v < 52 then 0x61 + (v - 26)
    else if v < 62 then 0x30 + (v - 52)
    else if v == 62 then 0x2b
    else 0x2f
  }

  predicate IsSymbol(c: byte) {
    0x41 <= c <= 0x5a || 0x61 <= c <= 0x7a || 0x30 <= c <= 0x39 || c == 0x2b || c == 0x2f
  }

  function SymbolValue(c: byte): (v: sextet)
    requires IsSymbol(c)
    ensures Symbol(v) == c
  {
    if 0x41 <= c <= 0x5a then c - 0x41
    else if 0x61 <= c <= 0x7a then c - 0x61 + 26
    else if 0x30 <= c <= 0x39 then c - 0x30 + 52
    else if c == 0x2b then 62
    else 63
  }

  lemma SymbolRoundTrip(v: sextet)
    ensures IsSymbol(Symbol(v)) && SymbolValue(Symbol(v)) == v
  {
  }

  const PAD: byte := 0x3d

  // ---- The tables of the codec, written as runs of consecutive entries ----

  function Run(from: int, n: nat): (r: seq<int>)
    ensures |r| == n && forall k | 0 <= k < n :: r[k] == from + k
  {
    if n == 0 then [] else Run(from, n - 1) + [from + n - 1]
  }

  const ENCODING: seq<int> := Run(0x41, 26) + Run(0x61, 26) + Run(0x30, 10) + [0x2b, 0x2f]

  /** Starts at the entry for 43, the plus sign, and ends with that for 122, the letter z. */
  const DECODING: seq<int> := SIGNS_AND_DIGITS + LETTERS

  const SIGNS_AND_DIGITS: seq<int> := [62, -1, -1, -1, 63] + Run(52, 10) + [-1, -1, -1, -2, -1, -1, -1]

  const LETTERS: seq<int> := Run(0, 26) + [-1, -1, -1, -1, -1, -1] + Run(26, 26)

  /** base64_encode_value, for the values a char of the encoder can hold. */
  function EncodeValue(v: nat): byte {
    if v > 63 then PAD else ENCODING[v]
  }

  /** The value of a byte as a signed char, and the conversion of a difference back to one. */
  function SignedChar(c: byte): int {
    if c < 128 then c else c - 256
  }

  function ToSignedChar(x: int): int {
    if x < -128 then x + 256 else x
  }

  /** base64_decode_value: a negative result marks a byte to skip. */
  function DecodeValue(c: byte): int {
    var v := ToSignedChar(SignedChar(c) - 43);
    if v < 0 || v >= |DECODING| then -1 else DECODING[v]
  }

  lemma EncodeTable(v: sextet)
    ensures EncodeValue(v) == Symbol(v)
  {
  }

  lemma SignsAndDigits(v: nat)
    requires v < 22
    ensures |SIGNS_AND_DIGITS| == 22
    ensures SIGNS_AND_DIGITS[v] ==
            if v == 0 then 62 else if v == 4 then 63 else if 5 <= v < 15 then 52 + (v - 5)
            else if v == 18 then -2 else -1
  {
  }

  lemma Letters(v: nat)
    requires v < 58
    ensures |LETTERS| == 58
    ensures LETTERS[v] == if v < 26 then v else if v < 32 then -1 else 26 + (v - 32)
  {
  }

  /** The decoder's table is the alphabet; the pad and every byte from 0x80 on are skipped. */
  lemma DecodeTable(c: byte)
    ensures DecodeValue(c) >= 0 <==> IsSymbol(c)
    ensures IsSymbol(c) ==> DecodeValue(c) == SymbolValue(c)
  {
    hide SIGNS_AND_DIGITS, LETTERS;
    SignsAndDigits(0);
    Letters(0);
    if 43 <= c < 65 {
      SignsAndDigits(c - 43);
    } else if 65 <= c < 123 {
      Letters(c - 65);
    }
  }

  // ---- The bit fields that the codec cuts out of bytes and values, in place for the next one ----

  /** (b & 0xfc) >> 2 */
  function Top6(b: byte): sextet {
    b / 4
  }

  /** (b & 0x03) << 4 */
  function Low2(b: byte): (v: sextet)
    ensures v <= 48
  {
    b % 4 * 16
  }

  /** (b & 0xf0) >> 4 */
  function Top4(b: byte): (v: sextet)
    ensures v < 16
  {
    b / 16
  }

  /** (b & 0x0f) << 2 */
  function Low4(b: byte): (v: sextet)
    ensures v <= 60
  {
    b % 16 * 4
  }

  /** (b & 0xc0) >> 6 */
  function Top2(b: byte): (v: sextet)
    ensures v < 4
  {
    b / 64
  }

  /** b & 0x3f */
  function Low6(b: byte): sextet {
    b % 64
  }

  /** (v & 0x3f) << 2 */
  function Byte6(v: sextet): (b: byte)
    ensures b <= 252
  {
    v * 4
  }

  /** (v & 0x30) >> 4 */
  function Head2(v: sextet): (b: byte)
    ensures b < 4
  {
    v / 16
  }

  /** (v & 0x0f) << 4 */
  function Byte4(v: sextet): (b: byte)
    ensures b <= 240
  {
    v % 16 * 16
  }

  /** (v & 0x3c) >> 2 */
  function Head4(v: sextet): (b: byte)
    ensures b < 16
  {
    v / 4
  }

  /** (v & 0x03) << 6 */
  function Byte2(v: sextet): (b: byte)
    ensures b <= 192
  {
    v % 4 * 64
  }

  /** The fields that make room for the next byte leave its bits clear. */
  lemma FreeBits(b: byte, v: sextet)
    ensures Low2(b) % 16 == 0 && Low4(b) % 4 == 0
    ensures Byte6(v) % 4 == 0 && Byte4(v) % 16 == 0 && Byte2(v) % 64 == 0
  {
  }

  // ---- Encoding (RFC 4648, section 4) ----

  function Rfc4648(s: bytes): bytes {
    if s == [] then []
    else if |s| == 1 then
      [Symbol(Top6(s[0])), Symbol(Low2(s[0])), PAD, PAD]
    else if |s| == 2 then
      [Symbol(Top6(s[0])), Symbol(Low2(s[0]) + Top4(s[1])), Symbol(Low4(s[1])), PAD]
    else Quad(s[0], s[1], s[2]) + Rfc4648(s[3..])
  }

  function Quad(a: byte, b: byte, c: byte): bytes {
    [Symbol(Top6(a)), Symbol(Low2(a) + Top4(b)), Symbol(Low4(b) + Top2(c)), Symbol(Low6(c))]
  }

  /** Three bytes as one 24-bit number. */
  function Bits24(a: byte, b: byte, c: byte): nat {
    a * 0x10000 + b * 0x100 + c
  }

  function SixBits(n: nat): sextet {
    n % 0x40
  }

  lemma GroupValue(a: byte, b: byte, c: byte)
    ensures Top6(a) * 0x40000 + (Low2(a) + Top4(b)) * 0x1000 + (Low4(b) + Top2(c)) * 0x40 + Low6(c) == Bits24(a, b, c)
  {
  }

  lemma SixBitDigits(n: nat, d1: sextet, d2: sextet, d3: sextet, d4: sextet)
    requires n == d1 * 0x40000 + d2 * 0x1000 + d3 * 0x40 + d4
    ensures SixBits(n / 0x40000) == d1 && SixBits(n / 0x1000) == d2 && SixBits(n / 0x40) == d3 && SixBits(n) == d4
  {
    assert n / 0x40 == d1 * 0x1000 + d2 * 0x40 + d3;
    assert n / 0x1000 == d1 * 0x40 + d2;
    assert n / 0x40000 == d1;
  }

  /** Three bytes become the four 6-bit digits of their 24-bit number (section 4 of RFC 4648). */
  lemma QuadIsGroup(a: byte, b: byte, c: byte)
    ensures var n := Bits24(a, b, c);
            Quad(a, b, c) == [Symbol(SixBits(n / 0x40000)), Symbol(SixBits(n / 0x1000)),
                              Symbol(SixBits(n / 0x40)), Symbol(SixBits(n))]
  {
    hide Symbol, SixBits, Top6, Low2, Top4, Low4, Top2, Low6;
    GroupValue(a, b, c);
    SixBitDigits(Bits24(a, b, c), Top6(a), Low2(a) + Top4(b), Low4(b) + Top2(c), Low6(c));
  }

  /** One or two bytes at the end are a group filled up with zero bits, of which the pads take the rest. */
  lemma TailsAreZeroFilled(a: byte, b: byte)
    ensures Rfc4648([a]) == Quad(a, 0, 0)[..2] + Ascii("==")
    ensures Rfc4648([a, b]) == Quad(a, b, 0)[..3] + Ascii("=")
  {
    hide Symbol;
    assert Top4(0) == 0 && Top2(0) == 0;
  }

  /** Four characters for three bytes or a part of them, and no newline anywhere. */
  lemma {:induction false} EncodedShape(s: bytes)
    ensures |Rfc4648(s)| == (|s| + 2) / 3 * 4
    ensures forall k | 0 <= k < |Rfc4648(s)| :: Rfc4648(s)[k] != 0x0a
  {
    if |s| > 2 {
      EncodedShape(s[3..]);
    }
  }

  datatype EStep = StepA | StepB | StepC

  /** The step to go on with, and the bits left over from the last byte. */
  datatype EState = EState(step: EStep, result: byte)

  const E_INIT: EState := EState(StepA, 0)

  /** The states of an encoder: what is left over has its free bits clear. */
  predicate EncoderOk(st: EState) {
    match st.step
    case StepA => true
    case StepB => st.result % 16 == 0 && st.result <= 48
    case StepC => st.result % 4 == 0 && st.result <= 60
  }

  /** What one byte adds to the output, and the state after it. */
  function EncodeByte(st: EState, b: byte): (r: (EState, bytes))
    requires EncoderOk(st)
    ensures EncoderOk(r.0)
  {
    FreeBits(b, 0);
    match st.step
    case StepA => (EState(StepB, Low2(b)), [Symbol(Top6(b))])
    case StepB => (EState(StepC, Low4(b)), [Symbol(st.result + Top4(b))])
    case StepC => (EState(StepA, Low6(b)), [Symbol(st.result + Top2(b)), Symbol(Low6(b))])
  }

  function EncodeAll(st: EState, s: bytes): (r: (EState, bytes))
    requires EncoderOk(st)
    ensures EncoderOk(r.0)
    decreases |s|
  {
    if s == [] then (st, [])
    else
      var (st1, o1) := EncodeByte(st, s[0]);
      var (st2, o2) := EncodeAll(st1, s[1..]);
      (st2, o1 + o2)
  }

  /** base64_encode_blockend. */
  function EncodeEnd(st: EState): bytes
    requires EncoderOk(st)
  {
    match st.step
    case StepA => []
    case StepB => [Symbol(st.result), PAD, PAD]
    case StepC => [Symbol(st.result), PAD]
  }

  /** Two blocks with the state carried over are one block. */
  lemma {:induction false} EncodeSplit(st: EState, a: bytes, b: bytes)
    requires EncoderOk(st)
    ensures var (st1, o1) := EncodeAll(st, a); var (st2, o2) := EncodeAll(st1, b);
            EncodeAll(st, a + b) == (st2, o1 + o2)
    decreases |a|
  {
    if a == [] {
      assert a + b == b;
      assert [] + EncodeAll(st, b).1 == EncodeAll(st, b).1;
    } else {
      var (st1, o1) := EncodeByte(st, a[0]);
      assert (a + b)[1..] == a[1..] + b && (a + b)[0] == a[0];
      EncodeSplit(st1, a[1..], b);
      var (st2, o2) := EncodeAll(st1, a[1..]);
      Assoc(o1, o2, EncodeAll(st2, b).1);
    }
  }

  function Flatten(blocks: seq<bytes>): bytes {
    if blocks == [] then [] else blocks[0] + Flatten(blocks[1..])
  }

  /** The outputs of successive blocks, joined. */
  function EncodeBlocks(st: EState, blocks: seq<bytes>): (r: (EState, bytes))
    requires EncoderOk(st)
    ensures EncoderOk(r.0)
    decreases |blocks|
  {
    if blocks == [] then (st, [])
    else
      var (st1, o1) := EncodeAll(st, blocks[0]);
      var (st2, o2) := EncodeBlocks(st1, blocks[1..]);
      (st2, o1 + o2)
  }

  lemma {:induction false} EncodeChunks(st: EState, blocks: seq<bytes>)
    requires EncoderOk(st)
    ensures EncodeBlocks(st, blocks) == EncodeAll(st, Flatten(blocks))
    decreases |blocks|
  {
    if blocks != [] {
      EncodeSplit(st, blocks[0], Flatten(blocks[1..]));
      EncodeChunks(EncodeAll(st, blocks[0]).0, blocks[1..]);
    }
  }

  lemma EncodeStep(st: EState, b: byte, t: bytes)
    requires EncoderOk(st)
    ensures var (st1, o1) := EncodeByte(st, b); var (st2, o2) := EncodeAll(st1, t);
            EncodeAll(st, [b] + t) == (st2, o1 + o2)
  {
    assert ([b] + t)[1..] == t;
  }

  /** A whole group of three bytes brings the encoder back to its first step. */
  lemma EncodeThree(st: EState, a: byte, b: byte, c: byte, t: bytes)
    requires st.step == StepA
    ensures var (st', o) := EncodeAll(EState(StepA, Low6(c)), t);
            EncodeAll(st, [a] + ([b] + ([c] + t))) == (st', Quad(a, b, c) + o)
  {
    hide Symbol, EncodeAll;
    EncodeStep(st, a, [b] + ([c] + t));
    EncodeStep(EState(StepB, Low2(a)), b, [c] + t);
    EncodeStep(EState(StepC, Low4(b)), c, t);
    var o := EncodeAll(EState(StepA, Low6(c)), t).1;
    var q := Quad(a, b, c);
    assert [q[0]] + ([q[1]] + ([q[2], q[3]] + o)) == q + o;
  }

  lemma EncodeTail(st: EState, s: bytes)
    requires st.step == StepA && |s| < 3
    ensures EncodeAll(st, s).1 + EncodeEnd(EncodeAll(st, s).0) == Rfc4648(s)
  {
    hide Symbol;
    if |s| == 1 {
      assert s == [s[0]];
      assert [s[0]][1..] == [];
    } else if |s| == 2 {
      assert s == [s[0], s[1]];
      assert [s[0], s[1]][1..] == [s[1]] && [s[1]][1..] == [];
      assert EncodeAll(EState(StepB, Low2(s[0])), [s[1]]) ==
        (EState(StepC, Low4(s[1])), [Symbol(Low2(s[0]) + Top4(s[1]))] + []);
    }
  }

  lemma {:induction false} EncoderIsRfc4648(st: EState, s: bytes)
    requires st.step == StepA
    ensures EncodeAll(st, s).1 + EncodeEnd(EncodeAll(st, s).0) == Rfc4648(s)
    decreases |s|
  {
    hide Symbol, EncodeAll, Quad;
    if |s| >= 3 {
      var st3 := EState(StepA, Low6(s[2]));
      EncodeThree(st, s[0], s[1], s[2], s[3..]);
      EncoderIsRfc4648(st3, s[3..]);
      assert s == [s[0]] + ([s[1]] + ([s[2]] + s[3..]));
      var (st', o) := EncodeAll(st3, s[3..]);
      Assoc(Quad(s[0], s[1], s[2]), o, EncodeEnd(st'));
    } else {
      EncodeTail(st, s);
    }
  }

  /** However the input is cut into blocks, blocks and end together are the RFC 4648 encoding. */
  lemma EncoderRefinesRfc4648(blocks: seq<bytes>)
    ensures var (st, o) := EncodeBlocks(E_INIT, blocks);
            && o + EncodeEnd(st) == Rfc4648(Flatten(blocks))
            && |o + EncodeEnd(st)| == (|Flatten(blocks)| + 2) / 3 * 4
  {
    EncodeChunks(E_INIT, blocks);
    EncoderIsRfc4648(E_INIT, Flatten(blocks));
    EncodedShape(Flatten(blocks));
  }

  // ---- Decoding ----

  /** The values of the characters of the alphabet, everything else skipped. */
  function Sextets(s: bytes): seq<sextet> {
    if s == [] then []
    else if IsSymbol(s[0]) then [SymbolValue(s[0])] + Sextets(s[1..])
    else Sextets(s[1..])
  }

  /** The characters of the alphabet alone. */
  function AlphabetOnly(s: bytes): bytes {
    if s == [] then []
    else if IsSymbol(s[0]) then [s[0]] + AlphabetOnly(s[1..])
    else AlphabetOnly(s[1..])
  }

  /** The bytes that groups of four values stand for; a short last group gives what it determines. */
  function Group(vs: seq<sextet>): bytes {
    if |vs| < 2 then []
    else if |vs| == 2 then [Byte6(vs[0]) + Head2(vs[1])]
    else if |vs| == 3 then [Byte6(vs[0]) + Head2(vs[1]), Byte4(vs[1]) + Head4(vs[2])]
    else Triple(vs[0], vs[1], vs[2], vs[3]) + Group(vs[4..])
  }

  function Triple(a: sextet, b: sextet, c: sextet, d: sextet): bytes {
    [Byte6(a) + Head2(b), Byte4(b) + Head4(c), Byte2(c) + d]
  }

  lemma {:induction false} GroupLength(vs: seq<sextet>)
    ensures |Group(vs)| == 3 * (|vs| / 4) + (if |vs| % 4 == 0 then 0 else |vs| % 4 - 1)
  {
    if |vs| >= 4 {
      GroupLength(vs[4..]);
    }
  }

  /** What decodeBase64 returns. */
  function DecodeText(s: bytes): bytes {
    Group(Sextets(s))
  }

  lemma {:induction false} SextetsOfAlphabet(s: bytes)
    ensures Sextets(AlphabetOnly(s)) == Sextets(s) && |Sextets(s)| == |AlphabetOnly(s)|
  {
    if s != [] {
      SextetsOfAlphabet(s[1..]);
      if IsSymbol(s[0]) {
        assert AlphabetOnly(s)[1..] == AlphabetOnly(s[1..]);
      }
    }
  }

  /** Bytes outside the alphabet make no difference anywhere, and the length follows from the rest. */
  lemma LiberalDecoding(s: bytes)
    ensures DecodeText(s) == DecodeText(AlphabetOnly(s))
    ensures var m := |AlphabetOnly(s)|; |DecodeText(s)| == 3 * (m / 4) + (if m % 4 == 0 then 0 else m % 4 - 1)
  {
    SextetsOfAlphabet(s);
    GroupLength(Sextets(s));
  }

  datatype DStep = Step0 | Step1 | Step2 | Step3

  /** The step to go on with, and the byte that is being put together. */
  datatype DState = DState(step: DStep, plain: byte)

  const D_INIT: DState := DState(Step0, 0)

  /** The free low bits of the unfinished byte are clear. */
  predicate DecoderOk(st: DState) {
    match st.step
    case Step0 => true
    case Step1 => st.plain % 4 == 0 && st.plain <= 252
    case Step2 => st.plain % 16 == 0 && st.plain <= 240
    case Step3 => st.plain % 64 == 0 && st.plain <= 192
  }

  /** At the first step the saved byte means nothing; it is shown as 0. */
  function Normal(st: DState): DState {
    if st.step == Step0 then D_INIT else st
  }

  /** What one more value adds to the output, and the state after it. */
  function DecodeSextet(st: DState, v: sextet): (r: (DState, bytes))
    requires DecoderOk(st)
    ensures DecoderOk(r.0)
  {
    FreeBits(0, v);
    match st.step
    case Step0 => (DState(Step1, Byte6(v)), [])
    case Step1 => (DState(Step2, Byte4(v)), [st.plain + Head2(v)])
    case Step2 => (DState(Step3, Byte2(v)), [st.plain + Head4(v)])
    case Step3 => (D_INIT, [st.plain + v])
  }

  function DecodeByte(st: DState, c: byte): (r: (DState, bytes))
    requires DecoderOk(st)
    ensures DecoderOk(r.0)
  {
    if IsSymbol(c) then DecodeSextet(st, SymbolValue(c)) else (st, [])
  }

  function DecodeAll(st: DState, s: bytes): (r: (DState, bytes))
    requires DecoderOk(st)
    ensures DecoderOk(r.0)
    decreases |s|
  {
    if s == [] then (st, [])
    else
      var (st1, o1) := DecodeByte(st, s[0]);
      var (st2, o2) := DecodeAll(st1, s[1..]);
      (st2, o1 + o2)
  }

  lemma {:induction false} DecodeSplit(st: DState, a: bytes, b: bytes)
    requires DecoderOk(st)
    ensures var (st1, o1) := DecodeAll(st, a); var (st2, o2) := DecodeAll(st1, b);
            DecodeAll(st, a + b) == (st2, o1 + o2)
    decreases |a|
  {
    if a == [] {
      assert a + b == b;
      assert [] + DecodeAll(st, b).1 == DecodeAll(st, b).1;
    } else {
      var (st1, o1) := DecodeByte(st, a[0]);
      assert (a + b)[1..] == a[1..] + b && (a + b)[0] == a[0];
      DecodeSplit(st1, a[1..], b);
      var (st2, o2) := DecodeAll(st1, a[1..]);
      Assoc(o1, o2, DecodeAll(st2, b).1);
    }
  }

  function DecodeBlocks(st: DState, blocks: seq<bytes>): (r: (DState, bytes))
    requires DecoderOk(st)
    ensures DecoderOk(r.0)
    decreases |blocks|
  {
    if blocks == [] then (st, [])
    else
      var (st1, o1) := DecodeAll(st, blocks[0]);
      var (st2, o2) := DecodeBlocks(st1, blocks[1..]);
      (st2, o1 + o2)
  }

  /** However the input is cut into blocks, empty ones included, output and final state are the same. */
  lemma {:induction false} DecodeChunks(st: DState, blocks: seq<bytes>)
    requires DecoderOk(st)
    ensures DecodeBlocks(st, blocks) == DecodeAll(st, Flatten(blocks))
    decreases |blocks|
  {
    if blocks != [] {
      DecodeSplit(st, blocks[0], Flatten(blocks[1..]));
      DecodeChunks(DecodeAll(st, blocks[0]).0, blocks[1..]);
    }
  }

  lemma {:induction false} SavedByteIsIgnored(p: byte, q: byte, s: bytes)
    ensures DecodeAll(DState(Step0, p), s).1 == DecodeAll(DState(Step0, q), s).1
    ensures Normal(DecodeAll(DState(Step0, p), s).0) == Normal(DecodeAll(DState(Step0, q), s).0)
  {
    if s != [] && !IsSymbol(s[0]) {
      SavedByteIsIgnored(p, q, s[1..]);
    }
  }

  /** The saved byte makes no difference to any further output exactly at the first step. */
  lemma SavedByteMatters(step: DStep, p: byte, q: byte)
    requires p != q && DecoderOk(DState(step, p)) && DecoderOk(DState(step, q))
    ensures step == Step0 <==> forall s :: DecodeAll(DState(step, p), s).1 == DecodeAll(DState(step, q), s).1
  {
    if step == Step0 {
      forall s ensures DecodeAll(DState(step, p), s).1 == DecodeAll(DState(step, q), s).1 {
        SavedByteIsIgnored(p, q, s);
      }
    } else {
      var a := [0x41];
      assert a[1..] == [];
      assert DecodeAll(DState(step, p), a).1 == [p] && DecodeAll(DState(step, q), a).1 == [q];
    }
  }

  /** The state of a decoder that has read the values of an unfinished group. */
  function StateAfter(pend: seq<sextet>): (st: DState)
    requires |pend| < 4
    ensures DecoderOk(st)
  {
    if |pend| == 0 then D_INIT
    else
      var v := pend[|pend| - 1];
      FreeBits(0, v);
      if |pend| == 1 then DState(Step1, Byte6(v))
      else if |pend| == 2 then DState(Step2, Byte4(v))
      else DState(Step3, Byte2(v))
  }

  lemma ShortGroups(a: sextet, b: sextet, c: sextet)
    ensures Group([a]) == []
    ensures Group([a, b]) == [Byte6(a) + Head2(b)]
    ensures Group([a, b, c]) == [Byte6(a) + Head2(b), Byte4(b) + Head4(c)]
  {
  }

  lemma FirstValue(c: byte)
    requires IsSymbol(c)
    ensures DecodeByte(D_INIT, c) == (StateAfter([SymbolValue(c)]), [])
  {
  }

  lemma SecondValue(a: sextet, c: byte)
    requires IsSymbol(c)
    ensures DecodeByte(StateAfter([a]), c) == (StateAfter([a, SymbolValue(c)]), [Byte6(a) + Head2(SymbolValue(c))])
  {
    hide SymbolValue, IsSymbol, Byte6, Head2, Byte4;
  }

  lemma ThirdValue(a: sextet, b: sextet, c: byte)
    requires IsSymbol(c)
    ensures DecodeByte(StateAfter([a, b]), c)
         == (StateAfter([a, b, SymbolValue(c)]), [Byte4(b) + Head4(SymbolValue(c))])
  {
    hide SymbolValue, IsSymbol, Byte4, Head4, Byte2;
  }

  /** One more value goes on with the group. */
  lemma DecodeByteGoesOn(pend: seq<sextet>, c: byte)
    requires |pend| < 3 && IsSymbol(c)
    ensures var v := SymbolValue(c);
            && DecodeByte(StateAfter(pend), c).0 == StateAfter(pend + [v])
            && Group(pend + [v]) == Group(pend) + DecodeByte(StateAfter(pend), c).1
  {
    hide SymbolValue, IsSymbol, Group, Byte6, Head2, Byte4, Head4, Byte2, StateAfter, DecodeByte;
    var v := SymbolValue(c);
    Spell(pend, v);
    if |pend| == 0 {
      StateAfterNothing();
      FirstValue(c);
      ShortGroups(v, v, v);
    } else if |pend| == 1 {
      SecondValue(pend[0], c);
      ShortGroups(pend[0], v, v);
    } else {
      ThirdValue(pend[0], pend[1], c);
      ShortGroups(pend[0], pend[1], v);
    }
  }

  /** The fourth value completes it. */
  lemma DecodeByteCompletes(pend: seq<sextet>, c: byte)
    requires |pend| == 3 && IsSymbol(c)
    ensures DecodeByte(StateAfter(pend), c).0 == D_INIT
    ensures Triple(pend[0], pend[1], pend[2], SymbolValue(c)) == Group(pend) + DecodeByte(StateAfter(pend), c).1
  {
    hide SymbolValue, IsSymbol, Group, Byte6, Head2, Byte4, Head4, Byte2;
    Spell(pend, 0);
    ShortGroups(pend[0], pend[1], pend[2]);
  }

  lemma Spell(pend: seq<sextet>, v: sextet)
    ensures |pend| == 0 ==> pend == [] && pend + [v] == [v]
    ensures |pend| == 1 ==> pend == [pend[0]] && pend + [v] == [pend[0], v]
    ensures |pend| == 2 ==> pend == [pend[0], pend[1]] && pend + [v] == [pend[0], pend[1], v]
    ensures |pend| == 3 ==> pend == [pend[0], pend[1], pend[2]]
  {
  }

  lemma {:induction false} DecoderGroups(pend: seq<sextet>, s: bytes)
    requires |pend| < 4
    ensures Group(pend) + DecodeAll(StateAfter(pend), s).1 == Group(pend + Sextets(s))
    decreases |s|
  {
    hide SymbolValue, IsSymbol, StateAfter, DecodeByte, Triple;
    if s == [] {
      assert pend + [] == pend;
    } else if !IsSymbol(s[0]) {
      DecodeSkip(StateAfter(pend), s[0]);
      assert [] + DecodeAll(StateAfter(pend), s[1..]).1 == DecodeAll(StateAfter(pend), s[1..]).1;
      DecoderGroups(pend, s[1..]);
    } else {
      var v := SymbolValue(s[0]);
      var (st1, o1) := DecodeByte(StateAfter(pend), s[0]);
      var o2 := DecodeAll(st1, s[1..]).1;
      Assoc(Group(pend), o1, o2);
      AppendOne(pend, v, Sextets(s[1..]));
      if |pend| < 3 {
        DecodeByteGoesOn(pend, s[0]);
        DecoderGroups(pend + [v], s[1..]);
      } else {
        DecodeByteCompletes(pend, s[0]);
        StateAfterNothing();
        DecoderGroups([], s[1..]);
        GroupOfFour(pend + [v], Sextets(s[1..]));
      }
    }
  }

  lemma DecodeSkip(st: DState, c: byte)
    requires DecoderOk(st) && !IsSymbol(c)
    ensures DecodeByte(st, c) == (st, [])
  {
  }

  lemma StateAfterNothing()
    ensures StateAfter([]) == D_INIT && Group([]) == []
  {
  }

  lemma AppendOne(pend: seq<sextet>, v: sextet, vs: seq<sextet>)
    ensures pend + ([v] + vs) == pend + [v] + vs
  {
  }

  lemma GroupOfFour(q: seq<sextet>, vs: seq<sextet>)
    requires |q| == 4
    ensures Group(q + vs) == Triple(q[0], q[1], q[2], q[3]) + Group([] + vs)
    ensures [] + Group([] + vs) == Group([] + vs)
  {
    assert (q + vs)[4..] == vs == [] + vs;
  }

  /** The decoder computes the groups of the alphabet characters. */
  lemma DecoderIsGroups(s: bytes)
    ensures DecodeAll(D_INIT, s).1 == DecodeText(s)
  {
    DecoderGroups([], s);
    assert [] + Sextets(s) == Sextets(s);
    assert [] + DecodeAll(D_INIT, s).1 == DecodeAll(D_INIT, s).1;
  }

  // ---- Round trip ----

  lemma SextetsStep(c: byte, t: bytes)
    ensures Sextets([c] + t) == if IsSymbol(c) then [SymbolValue(c)] + Sextets(t) else Sextets(t)
  {
    assert ([c] + t)[1..] == t;
  }

  lemma SymbolStep(v: sextet, t: bytes)
    ensures Sextets([Symbol(v)] + t) == [v] + Sextets(t)
  {
    SextetsStep(Symbol(v), t);
    SymbolRoundTrip(v);
  }

  lemma PadStep(t: bytes)
    ensures Sextets([PAD] + t) == Sextets(t)
  {
    SextetsStep(PAD, t);
  }

  lemma TripleUndoesQuad(a: byte, b: byte, c: byte)
    ensures Triple(Top6(a), Low2(a) + Top4(b), Low4(b) + Top2(c), Low6(c)) == [a, b, c]
  {
    hide Top6, Low2, Top4, Low4, Top2, Low6, Byte6, Head2, Byte4, Head4, Byte2;
    FirstUndone(a, b);
    SecondUndone(a, b, c);
    ThirdUndone(b, c);
  }

  lemma FirstUndone(a: byte, b: byte)
    ensures Byte6(Top6(a)) + Head2(Low2(a) + Top4(b)) == a && Byte6(Top6(a)) + Head2(Low2(a)) == a
  {
  }

  lemma SecondUndone(a: byte, b: byte, c: byte)
    ensures Byte4(Low2(a) + Top4(b)) + Head4(Low4(b) + Top2(c)) == b
    ensures Byte4(Low2(a) + Top4(b)) + Head4(Low4(b)) == b
  {
    assert Byte4(Low2(a) + Top4(b)) == Byte4(Top4(b));
    assert Head4(Low4(b) + Top2(c)) == Head4(Low4(b));
  }

  lemma ThirdUndone(b: byte, c: byte)
    ensures Byte2(Low4(b) + Top2(c)) + Low6(c) == c
  {
  }

  lemma QuadSextets(a: byte, b: byte, c: byte, t: bytes)
    ensures Sextets(Quad(a, b, c) + t)
         == [Top6(a), Low2(a) + Top4(b), Low4(b) + Top2(c), Low6(c)] + Sextets(t)
  {
    hide Symbol, Sextets;
    var v1, v2, v3, v4 := Top6(a), Low2(a) + Top4(b), Low4(b) + Top2(c), Low6(c);
    SymbolStep(v4, t);
    SymbolStep(v3, [Symbol(v4)] + t);
    SymbolStep(v2, [Symbol(v3)] + ([Symbol(v4)] + t));
    SymbolStep(v1, [Symbol(v2)] + ([Symbol(v3)] + ([Symbol(v4)] + t)));
    assert Quad(a, b, c) + t == [Symbol(v1)] + ([Symbol(v2)] + ([Symbol(v3)] + ([Symbol(v4)] + t)));
  }

  lemma OneSextets(a: byte)
    ensures Sextets(Rfc4648([a])) == [Top6(a), Low2(a)]
  {
    hide Symbol, Sextets;
    var v1, v2 := Top6(a), Low2(a);
    EmptySextets();
    PadStep([]);
    PadStep([PAD] + []);
    SymbolStep(v2, [PAD] + ([PAD] + []));
    SymbolStep(v1, [Symbol(v2)] + ([PAD] + ([PAD] + [])));
    assert Rfc4648([a]) == [Symbol(v1)] + ([Symbol(v2)] + ([PAD] + ([PAD] + [])));
  }

  lemma TwoSextets(a: byte, b: byte)
    ensures Sextets(Rfc4648([a, b])) == [Top6(a), Low2(a) + Top4(b), Low4(b)]
  {
    hide Symbol, Sextets;
    var v1, v2, v3 := Top6(a), Low2(a) + Top4(b), Low4(b);
    EmptySextets();
    PadStep([]);
    SymbolStep(v3, [PAD] + []);
    SymbolStep(v2, [Symbol(v3)] + ([PAD] + []));
    SymbolStep(v1, [Symbol(v2)] + ([Symbol(v3)] + ([PAD] + [])));
    assert Rfc4648([a, b]) == [Symbol(v1)] + ([Symbol(v2)] + ([Symbol(v3)] + ([PAD] + [])));
  }

  lemma EmptySextets()
    ensures Sextets([]) == []
  {
  }

  lemma DecodeNone()
    ensures DecodeText(Rfc4648([])) == []
  {
  }

  lemma DecodeOne(a: byte)
    ensures DecodeText(Rfc4648([a])) == [a]
  {
    hide Sextets, Group, Top6, Low2, Byte6, Head2, Rfc4648;
    OneSextets(a);
    FirstUndone(a, 0);
    ShortGroups(Top6(a), Low2(a), 0);
  }

  lemma DecodeTwo(a: byte, b: byte)
    ensures DecodeText(Rfc4648([a, b])) == [a, b]
  {
    hide Sextets, Group, Top6, Low2, Top4, Low4, Byte6, Head2, Byte4, Head4, Rfc4648;
    TwoSextets(a, b);
    FirstUndone(a, b);
    SecondUndone(a, b, 0);
    ShortGroups(Top6(a), Low2(a) + Top4(b), Low4(b));
  }

  lemma DecodeTail(s: bytes)
    requires |s| < 3
    ensures DecodeText(Rfc4648(s)) == s
  {
    hide DecodeText, Rfc4648;
    if |s| == 0 {
      DecodeNone();
      assert s == [];
    } else if |s| == 1 {
      assert s == [s[0]];
      DecodeOne(s[0]);
    } else {
      assert s == [s[0], s[1]];
      DecodeTwo(s[0], s[1]);
    }
  }

  /** Decoding undoes encoding, for every byte string. */
  lemma {:induction false} DecodeUndoesEncode(s: bytes)
    ensures DecodeText(Rfc4648(s)) == s
  {
    hide Symbol, Sextets, Quad, Triple, Group, Top6, Low2, Top4, Low4, Top2, Low6;
    if |s| < 3 {
      DecodeTail(s);
    } else {
      var t := Rfc4648(s[3..]);
      var q := [Top6(s[0]), Low2(s[0]) + Top4(s[1]), Low4(s[1]) + Top2(s[2]), Low6(s[2])];
      QuadSextets(s[0], s[1], s[2], t);
      GroupOfFour(q, Sextets(t));
      TripleUndoesQuad(s[0], s[1], s[2]);
      DecodeUndoesEncode(s[3..]);
      assert [] + Sextets(t) == Sextets(t);
      assert s == [s[0], s[1], s[2]] + s[3..];
    }
  }
}
