/**
 The resumable codec on buffers: blocks written through a pointer into an array, the state kept in
 a struct between calls, and the two wrappers that size the buffers.
 */
module Base64Codec {
  import opened Bytes
  import opened Base64

  const INT_MAX: int := 0x7fff_ffff

  // ---- Encoder ----

  class EncodeState {
    var step: EStep
    var result: byte

    constructor ()
      ensures View() == E_INIT
    {
      step, result := StepA, 0;
    }

    function View(): EState
      reads this
    {
      EState(step, result)
    }
  }

  /** The symbol for the bits left over and those of the next byte, which the code joins by an or. */
  lemma JoinedSymbol(st: EState, b: byte)
    requires EncoderOk(st)
    ensures EncodeValue(Top6(b)) == Symbol(Top6(b)) && EncodeValue(Low6(b)) == Symbol(Low6(b))
    ensures st.step == StepB ==> EncodeValue(BitOr(st.result, Top4(b))) == Symbol(st.result + Top4(b))
    ensures st.step == StepC ==> EncodeValue(BitOr(st.result, Top2(b))) == Symbol(st.result + Top2(b))
  {
    hide EncodeValue, Symbol, BitOr, Top6, Low6, Top4, Top2;
    EncodeTable(Top6(b));
    EncodeTable(Low6(b));
    if st.step == StepB {
      BitOr16(st.result / 16, Top4(b));
      EncodeTable(st.result + Top4(b));
    } else if st.step == StepC {
      BitOr4(st.result / 4, Top2(b));
      EncodeTable(st.result + Top2(b));
    }
  }

  lemma EncodeNext(st: EState, s: bytes, i: nat)
    requires EncoderOk(st) && i < |s|
    ensures var (st1, o1) := EncodeByte(st, s[i]); var (st2, o2) := EncodeAll(st1, s[i + 1..]);
            EncodeAll(st, s[i..]) == (st2, o1 + o2)
  {
    assert s[i..][1..] == s[i + 1..];
  }

  /** base64_encode_block, writing from `off` on; it returns how many characters it wrote. */
  method EncodeBlock(plain: bytes, out: array<byte>, off: nat, st: EncodeState) returns (n: nat)
    requires EncoderOk(st.View())
    requires off + |EncodeAll(st.View(), plain).1| <= out.Length
    modifies out, st
    ensures var (st', o) := EncodeAll(old(st.View()), plain);
            n == |o| && off + n <= out.Length && out[off..off + n] == o && st.View() == st'
    ensures forall k | 0 <= k < out.Length && !(off <= k < off + n) :: out[k] == old(out[k])
  {
    hide EncoderOk, EncodeByte, EncodeAll, Symbol, EncodeValue, Top6, Low2, Top4, Low4, Top2, Low6, BitOr;
    ghost var whole := EncodeAll(st.View(), plain);
    var step, result := st.step, st.result;
    var i, p := 0, off;
    assert plain[0..] == plain;
    assert out[off..off] + whole.1 == whole.1;
    while i < |plain|
      invariant 0 <= i <= |plain| && off <= p <= out.Length && EncoderOk(EState(step, result))
      invariant var (st', o) := EncodeAll(EState(step, result), plain[i..]);
                whole.0 == st' && whole.1 == out[off..p] + o
      invariant forall k | 0 <= k < out.Length && !(off <= k < p) :: out[k] == old(out[k])
    {
      var fragment := plain[i];
      ghost var cur, before := EState(step, result), out[off..p];
      ghost var o1 := EncodeByte(cur, fragment).1;
      ghost var o2 := EncodeAll(EncodeByte(cur, fragment).0, plain[i + 1..]).1;
      EncodeNext(cur, plain, i);
      Assoc(before, o1, o2);
      JoinedSymbol(cur, fragment);
      EncodeByteIs(cur, fragment);
      assert p + |o1| <= out.Length;
      match step {
        case StepA =>
          out[p] := EncodeValue(Top6(fragment));
          p := p + 1;
          result := Low2(fragment);
          step := StepB;
        case StepB =>
          out[p] := EncodeValue(BitOr(result, Top4(fragment)));
          p := p + 1;
          result := Low4(fragment);
          step := StepC;
        case StepC =>
          out[p] := EncodeValue(BitOr(result, Top2(fragment)));
          p := p + 1;
          result := Low6(fragment);
          out[p] := EncodeValue(result);
          p := p + 1;
          step := StepA;
      }
      i := i + 1;
      assert out[off..p] == before + o1;
    }
    EncodeNothing(EState(step, result));
    assert plain[i..] == [] && out[off..p] + [] == out[off..p];
    st.step, st.result := step, result;
    n := p - off;
  }

  lemma EncodeNothing(st: EState)
    requires EncoderOk(st)
    ensures EncodeAll(st, []) == (st, [])
  {
  }

  lemma EncodeByteIs(st: EState, b: byte)
    requires EncoderOk(st)
    ensures EncodeByte(st, b) ==
            match st.step
            case StepA => (EState(StepB, Low2(b)), [Symbol(Top6(b))])
            case StepB => (EState(StepC, Low4(b)), [Symbol(st.result + Top4(b))])
            case StepC => (EState(StepA, Low6(b)), [Symbol(st.result + Top2(b)), Symbol(Low6(b))])
  {
  }

  /** base64_encode_blockend. */
  method EncodeBlockEnd(out: array<byte>, off: nat, st: EncodeState) returns (n: nat)
    requires EncoderOk(st.View())
    requires off + |EncodeEnd(st.View())| <= out.Length
    modifies out
    ensures n == |EncodeEnd(st.View())| && off + n <= out.Length && out[off..off + n] == EncodeEnd(st.View())
    ensures forall k | 0 <= k < out.Length && !(off <= k < off + n) :: out[k] == old(out[k])
  {
    match st.step
    case StepA =>
      n := 0;
    case StepB =>
      EncodeTable(st.result);
      out[off], out[off + 1], out[off + 2] := EncodeValue(st.result), 0x3d, 0x3d;
      n := 3;
    case StepC =>
      EncodeTable(st.result);
      out[off], out[off + 1] := EncodeValue(st.result), 0x3d;
      n := 2;
  }

  /** encodeBase64, for inputs whose encoding fits in an int. The buffer suffices and no newline is trimmed. */
  method EncodeBase64(s: bytes) returns (r: bytes)
    requires (|s| + 2) / 3 * 4 <= INT_MAX
    ensures r == Rfc4648(s)
  {
    hide EncodeAll, EncodeEnd;
    if s == [] {
      return [];
    }
    EncoderIsRfc4648(E_INIT, s);
    EncodedShape(s);
    var buffer := new byte[|s| * 4 / 3 + 10](_ => 0);
    var state := new EncodeState();
    var n := EncodeBlock(s, buffer, 0, state);
    ghost var o := buffer[..n];
    var m := EncodeBlockEnd(buffer, n, state);
    var len: int := n + m;
    assert buffer[..len] == o + EncodeEnd(state.View());
    assert len > 0 ==> buffer[len - 1] == Rfc4648(s)[len - 1];
    if len > 0 && buffer[len - 1] == 0x0a {
      len := len - 1;
    }
    return buffer[..len];
  }

  // ---- Decoder ----

  class DecodeState {
    var step: DStep
    var plainchar: byte

    constructor ()
      ensures step == Step0 && plainchar == 0
    {
      step, plainchar := Step0, 0;
    }

    function View(): DState
      reads this
    {
      Normal(DState(step, plainchar))
    }
  }

  lemma JoinedByte(st: DState, v: sextet)
    requires DecoderOk(st)
    ensures st.step == Step1 ==> BitOr(st.plain, Head2(v)) == st.plain + Head2(v) < 256
    ensures st.step == Step2 ==> BitOr(st.plain, Head4(v)) == st.plain + Head4(v) < 256
    ensures st.step == Step3 ==> BitOr(st.plain, v) == st.plain + v < 256
  {
    hide BitOr, Head2, Head4;
    if st.step == Step1 {
      BitOr4(st.plain / 4, Head2(v));
    } else if st.step == Step2 {
      BitOr16(st.plain / 16, Head4(v));
    } else if st.step == Step3 {
      BitOr64(st.plain / 64, v);
    }
  }

  lemma DecodeNext(st: DState, s: bytes, i: nat)
    requires DecoderOk(st) && i < |s|
    ensures var (st1, o1) := DecodeByte(st, s[i]); var (st2, o2) := DecodeAll(st1, s[i + 1..]);
            DecodeAll(st, s[i..]) == (st2, o1 + o2)
  {
    assert s[i..][1..] == s[i + 1..];
  }

  lemma DecodeByteIs(st: DState, c: byte)
    requires DecoderOk(st)
    ensures DecodeValue(c) < 64
    ensures DecodeByte(st, c) == if DecodeValue(c) < 0 then (st, []) else DecodeSextet(st, DecodeValue(c))
  {
    hide DecodeValue, SymbolValue;
    DecodeTable(c);
  }

  lemma DecodeNothing(st: DState)
    requires DecoderOk(st)
    ensures DecodeAll(st, []) == (st, [])
  {
  }

  /** The unfinished byte is in the buffer, at the place of the next output byte. */
  function AtWork(step: DStep, plain: byte): DState {
    if step == Step0 then D_INIT else DState(step, plain)
  }

  /** The byte at `p` of a std::string: behind its contents, here the array, there is a NUL. */
  function Cell(out: array<byte>, p: nat): byte
    requires p <= out.Length
    reads out
  {
    if p == out.Length then 0 else out[p]
  }

  /** Whether an unfinished byte is being joined. */
  function Unfinished(step: DStep): nat {
    if step == Step0 then 0 else 1
  }

  /** An unfinished byte is finished later or is still there in the end. */
  lemma {:induction false} UnfinishedStays(st: DState, s: bytes)
    requires DecoderOk(st)
    ensures var (st', o) := DecodeAll(st, s); Unfinished(st.step) <= |o| + Unfinished(st'.step)
    decreases |s|
  {
    if s != [] {
      UnfinishedStays(DecodeByte(st, s[0]).0, s[1..]);
    }
  }

  /** One branch of the switch: joins the value to the byte at `p` and goes on to the next place. */
  method PutFragment(v: sextet, out: array<byte>, p: nat, step: DStep) returns (p': nat, step': DStep)
    requires p + Unfinished(step) <= out.Length && DecoderOk(AtWork(step, Cell(out, p)))
    requires var (st', o) := DecodeSextet(AtWork(step, Cell(out, p)), v); p + |o| + Unfinished(st'.step) <= out.Length
    modifies out
    ensures p <= p' && p + Unfinished(step) <= p' + Unfinished(step') <= out.Length
    ensures (AtWork(step', Cell(out, p')), out[p..p']) == old(DecodeSextet(AtWork(step, Cell(out, p)), v))
    ensures forall k | 0 <= k < out.Length && !(p <= k < p' + Unfinished(step')) :: out[k] == old(out[k])
  {
    hide Byte6, Head2, Byte4, Head4, Byte2, BitOr;
    JoinedByte(AtWork(step, Cell(out, p)), v);
    match step {
      case Step0 =>
        out[p] := Byte6(v);
        p', step' := p, Step1;
      case Step1 =>
        out[p] := BitOr(out[p], Head2(v));
        out[p + 1] := Byte4(v);
        p', step' := p + 1, Step2;
      case Step2 =>
        out[p] := BitOr(out[p], Head4(v));
        out[p + 1] := Byte2(v);
        p', step' := p + 1, Step3;
      case Step3 =>
        out[p] := BitOr(out[p], v);
        p', step' := p + 1, Step0;
    }
    assert out[p..p] == [];
    assert out[p..p + 1] == [out[p]];
  }

  /**
   base64_decode_block, writing from `off` on; it returns how many bytes it completed. The place
   after them holds the byte that is unfinished, if one is. Nothing beyond is written, and the only
   thing read beyond is the NUL behind the array, when the output fills it.
   */
  method DecodeBlock(code: bytes, out: array<byte>, off: nat, st: DecodeState) returns (n: nat)
    requires DecoderOk(st.View()) && off < out.Length
    requires var (st', o) := DecodeAll(st.View(), code); off + |o| + Unfinished(st'.step) <= out.Length
    modifies out, st
    ensures var (st', o) := DecodeAll(old(st.View()), code);
            n == |o| && off + n <= out.Length && out[off..off + n] == o && st.View() == st'
    ensures DecoderOk(st.View())
    ensures forall k | 0 <= k < out.Length && k != off && !(off <= k < off + n + Unfinished(st.step)) ::
              out[k] == old(out[k])
  {
    hide DecoderOk, DecodeByte, DecodeSextet, DecodeAll, DecodeValue;
    ghost var whole := DecodeAll(st.View(), code);
    var i, p, step := 0, off, st.step;
    out[p] := st.plainchar;
    assert code[0..] == code;
    assert out[off..off] + whole.1 == whole.1;
    while i < |code|
      invariant 0 <= i <= |code| && off <= p && p + Unfinished(step) <= out.Length
      invariant DecoderOk(AtWork(step, Cell(out, p)))
      invariant var (st', o) := DecodeAll(AtWork(step, Cell(out, p)), code[i..]);
                whole.0 == st' && whole.1 == out[off..p] + o
      invariant forall k | 0 <= k < out.Length && k != off && !(off <= k < p + Unfinished(step)) ::
                  out[k] == old(out[k])
    {
      ghost var cur, before, p0 := AtWork(step, Cell(out, p)), out[off..p], p;
      ghost var o1 := DecodeByte(cur, code[i]).1;
      ghost var o2 := DecodeAll(DecodeByte(cur, code[i]).0, code[i + 1..]).1;
      DecodeNext(cur, code, i);
      Assoc(before, o1, o2);
      DecodeByteIs(cur, code[i]);
      UnfinishedStays(DecodeByte(cur, code[i]).0, code[i + 1..]);
      assert whole.0 == DecodeAll(DecodeByte(cur, code[i]).0, code[i + 1..]).0 && whole.1 == before + (o1 + o2);
      var fragment := DecodeValue(code[i]);
      i := i + 1;
      if fragment >= 0 {
        p, step := PutFragment(fragment, out, p, step);
      }
      assert out[off..p] == out[off..p0] + out[p0..p] == before + o1;
    }
    DecodeNothing(AtWork(step, Cell(out, p)));
    assert code[i..] == [] && out[off..p] + [] == out[off..p];
    st.step, st.plainchar := step, Cell(out, p);
    n := p - off;
  }

  function StepNumber(step: DStep): nat {
    match step
    case Step0 => 0
    case Step1 => 1
    case Step2 => 2
    case Step3 => 3
  }

  /** The step counts the alphabet characters modulo four. */
  lemma {:induction false} StepCountsSymbols(st: DState, s: bytes)
    requires DecoderOk(st)
    ensures StepNumber(DecodeAll(st, s).0.step) == (StepNumber(st.step) + |AlphabetOnly(s)|) % 4
    ensures |AlphabetOnly(s)| <= |s|
    decreases |s|
  {
    if s != [] {
      StepCountsSymbols(DecodeByte(st, s[0]).0, s[1..]);
    }
  }

  /** What decoding writes, unfinished byte included, stays below the size of the result buffer. */
  lemma DecodeBound(s: bytes)
    ensures var (st, o) := DecodeAll(D_INIT, s);
            |o| + Unfinished(st.step) <= (|s| + 3) / 4 * 3
  {
    hide DecodeAll, DecodeText, AlphabetOnly;
    var m := |AlphabetOnly(s)|;
    DecoderIsGroups(s);
    LiberalDecoding(s);
    StepCountsSymbols(D_INIT, s);
    BufferArithmetic(m, |s|);
  }

  lemma BufferArithmetic(m: nat, n: nat)
    requires m <= n
    ensures 3 * (m / 4) + m % 4 <= (n + 3) / 4 * 3
  {
    assert m / 4 <= n / 4;
    if m % 4 != 0 {
      assert (n + 3) / 4 >= m / 4 + 1;
    }
  }

  /** decodeBase64, for inputs whose length fits in an int. The buffer has the size the original gives it. */
  method DecodeBase64(s: bytes) returns (r: bytes)
    requires |s| <= INT_MAX
    ensures r == DecodeText(s)
  {
    hide DecodeAll, DecodeText;
    if s == [] {
      DecoderIsGroups([]);
      DecodeNothing(D_INIT);
      return [];
    }
    DecodeBound(s);
    DecoderIsGroups(s);
    var buffer := new byte[(|s| + 3) / 4 * 3](_ => 0);
    var state := new DecodeState();
    var len := DecodeBlock(s, buffer, 0, state);
    return buffer[..len];
  }
}
