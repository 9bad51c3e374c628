/** Why one pending code point is enough to join surrogates in a single pass. */
module JsonStrings {
  import opened Bytes
  import opened JsonGrammar
  import opened JsonSyntax

  /** The code unit that waits for its partner; -1 stands for none. */
  function Pending(last: int): seq<Piece>
    requires last < 0x10000
  {
    if last < 0 then [] else [Utf16(last)]
  }

  predicate InRange(ps: seq<Piece>) {
    forall k | 0 <= k < |ps| && ps[k].Utf16? :: ps[k].u < 0x10000
  }

  lemma JoinByte(last: int, b: byte, ps: seq<Piece>)
    requires last < 0x10000 && InRange(ps)
    ensures Join(Pending(last) + ([Byte(b)] + ps)) == EncodeUtf8(last) + ([b] + Join(ps))
  {
    var qs := [Byte(b)] + ps;
    assert qs[1..] == ps;
    if last < 0 {
      assert Pending(last) + qs == qs;
    } else {
      assert (Pending(last) + qs)[1..] == qs;
    }
  }

  lemma JoinCode(last: int, u: nat, ps: seq<Piece>)
    requires last < 0x10000 && u < 0x10000 && InRange(ps)
    ensures Join(Pending(last) + ([Utf16(u)] + ps))
         == if IsHigh(last) && IsLow(u) then EncodeUtf8(Combine(last, u)) + Join(ps)
            else EncodeUtf8(last) + Join(Pending(u) + ps)
  {
    var qs := [Utf16(u)] + ps;
    assert qs[1..] == ps && qs == Pending(u) + ps;
    if last < 0 {
      assert Pending(last) + qs == qs;
    } else {
      var all := Pending(last) + qs;
      assert all[1..] == qs && all[2..] == ps;
    }
  }

  lemma JoinEnd(last: int)
    requires last < 0x10000
    ensures Join(Pending(last) + []) == EncodeUtf8(last)
  {
    assert Pending(last) + [] == Pending(last);
    assert last >= 0 ==> Pending(last)[1..] == [];
  }

  /** The string that is read in the end, when `out` and the pending unit precede the input `s`. */
  function StringFrom(out: bytes, last: int, s: bytes): Parsed<bytes>
    requires last < 0x10000
  {
    match LexUnits(s)
    case Fail(e) => Fail(e)
    case Ok(us, rest) => Ok(out + Join(Pending(last) + Pieces(us)), rest)
  }

  lemma FailStep(out: bytes, last: int, s: bytes)
    requires last < 0x10000 && LexUnits(s).Fail?
    ensures StringFrom(out, last, s) == Fail(LexUnits(s).e)
  {
  }

  lemma PiecesCons(u: StringUnit, us: seq<StringUnit>)
    ensures Pieces([u] + us) == [PieceOf(u)] + Pieces(us)
  {
    assert ([u] + us)[1..] == us;
  }

  lemma NonePending(us: seq<StringUnit>)
    ensures Pending(-1) + Pieces(us) == Pieces(us)
  {
  }

  /** Reading a unit that stands for one byte flushes the pending unit and appends the byte. */
  lemma ByteStep(out: bytes, last: int, s: bytes, u: StringUnit, tail: bytes)
    requires last < 0x10000 && UnitOk(u) && !u.Code?
    requires LexUnits(s) == PrependUnit(u, LexUnits(tail))
    ensures StringFrom(out, last, s) == StringFrom(out + EncodeUtf8(last) + [PieceOf(u).b], -1, tail)
  {
    hide LexUnits, Join, EncodeUtf8;
    if LexUnits(tail).Ok? {
      var us := LexUnits(tail).v;
      PiecesCons(u, us);
      var e, b, j := EncodeUtf8(last), [PieceOf(u).b], Join(Pieces(us));
      JoinByte(last, PieceOf(u).b, Pieces(us));
      NonePending(us);
      Assoc(out + e, b, j);
      Assoc(out, e, b + j);
    }
  }

  /** Reading a code unit completes the pair, or flushes the pending unit and becomes pending. */
  lemma CodeStep(out: bytes, last: int, s: bytes, h: bytes, tail: bytes)
    requires last < 0x10000 && IsHex4(h)
    requires LexUnits(s) == PrependUnit(Code(h), LexUnits(tail))
    ensures StringFrom(out, last, s)
         == if IsHigh(last) && IsLow(CodeValue(h))
            then StringFrom(out + EncodeUtf8(Combine(last, CodeValue(h))), -1, tail)
            else StringFrom(out + EncodeUtf8(last), CodeValue(h), tail)
  {
    hide LexUnits, Join, EncodeUtf8;
    if LexUnits(tail).Ok? {
      var us := LexUnits(tail).v;
      PiecesCons(Code(h), us);
      JoinCode(last, CodeValue(h), Pieces(us));
      NonePending(us);
      if IsHigh(last) && IsLow(CodeValue(h)) {
        Assoc(out, EncodeUtf8(Combine(last, CodeValue(h))), Join(Pieces(us)));
      } else {
        Assoc(out, EncodeUtf8(last), Join(Pending(CodeValue(h)) + Pieces(us)));
      }
    }
  }

  lemma EndStep(out: bytes, last: int, s: bytes)
    requires last < 0x10000 && s != [] && s[0] == 0x22
    ensures StringFrom(out, last, s) == Ok(out + EncodeUtf8(last), s[1..])
  {
    JoinEnd(last);
  }

  lemma StringFromStart(s: bytes)
    ensures StringFrom([], -1, s)
         == match LexUnits(s)
            case Fail(e) => Fail(e)
            case Ok(us, rest) => Ok(StringValue(us), rest)
  {
    hide LexUnits, Join;
    if LexUnits(s).Ok? {
      NonePending(LexUnits(s).v);
      assert [] + StringValue(LexUnits(s).v) == StringValue(LexUnits(s).v);
    }
  }
}
