/** Soundness and completeness of the lexical level: gaps, strings and numbers. */
module JsonLexical {
  import opened Bytes
  import opened JsonGrammar
  import opened Numerals
  import opened JsonSyntax

  /** The first byte starts a token: no gap can begin with it. */
  predicate TokenStart(st: Strategy, t: bytes) {
    t != [] && !IsSpace(t[0]) && (st.Comments? ==> t[0] != 0x2f)
  }

  // ---- Gaps ----

  lemma {:induction false} ConcatAppend(ps: seq<bytes>, qs: seq<bytes>)
    ensures Concat(ps + qs) == Concat(ps) + Concat(qs)
  {
    if ps == [] {
      assert ps + qs == qs;
    } else {
      ConcatAppend(ps[1..], qs);
      Assoc(ps[0], Concat(ps[1..]), Concat(qs));
      assert (ps + qs)[0] == ps[0] && (ps + qs)[1..] == ps[1..] + qs;
    }
  }

  lemma GapEmpty(st: Strategy)
    ensures IsGap(st, [])
  {
    assert GapPieces(st, []) && Concat([]) == [];
  }

  lemma GapPiece(st: Strategy, p: bytes)
    requires IsGapPiece(st, p)
    ensures IsGap(st, p)
  {
    assert GapPieces(st, [p]);
    assert Concat([p]) == p;
  }

  lemma GapConcat(st: Strategy, v: bytes, w: bytes)
    requires IsGap(st, v) && IsGap(st, w)
    ensures IsGap(st, v + w)
  {
    var ps :| GapPieces(st, ps) && Concat(ps) == v;
    var qs :| GapPieces(st, qs) && Concat(qs) == w;
    ConcatAppend(ps, qs);
    assert GapPieces(st, ps + qs);
  }

  lemma EndGapConcat(st: Strategy, v: bytes, w: bytes)
    requires IsGap(st, v) && IsEndGap(st, w)
    ensures IsEndGap(st, v + w)
  {
    if IsGap(st, w) {
      GapConcat(st, v, w);
    } else {
      var k :| 0 <= k <= |w| && IsGap(st, w[..k]) && IsOpenLine(w[k..]);
      GapConcat(st, v, w[..k]);
      assert (v + w)[..|v| + k] == v + w[..k] && (v + w)[|v| + k..] == w[k..];
    }
  }

  lemma GapStart(st: Strategy, w: bytes)
    requires IsGap(st, w) && w != []
    ensures IsSpace(w[0]) || (st.Comments? && w[0] == 0x2f)
  {
    var ps :| GapPieces(st, ps) && Concat(ps) == w;
    assert IsGapPiece(st, ps[0]) && w[0] == ps[0][0];
  }

  lemma {:induction false} SkipSpaceSound(st: Strategy, s: bytes)
    ensures IsSuffix(SkipSpace(s), s)
    ensures IsGap(st, Consumed(s, SkipSpace(s))) && !IsSpace(Peek(SkipSpace(s)))
  {
    if IsSpace(Peek(s)) {
      var r := SkipSpace(s[1..]);
      SkipSpaceSound(st, s[1..]);
      GapPiece(st, [s[0]]);
      GapConcat(st, [s[0]], Consumed(s[1..], r));
      assert Consumed(s, r) == [s[0]] + Consumed(s[1..], r);
    } else {
      GapEmpty(st);
    }
  }

  lemma {:induction false} SkipBlockSound(s: bytes)
    requires SkipBlock(s).Ok?
    ensures var n := |s| - |SkipBlock(s).rest|;
            2 <= n && SkipBlock(s).rest == s[n..] && ClosesAt(s, n - 2) && forall k | 0 <= k < n - 2 :: !ClosesAt(s, k)
  {
    if !ClosesAt(s, 0) {
      SkipBlockSound(s[1..]);
      assert SkipBlock(s) == SkipBlock(s[1..]);
      var n := |s| - |SkipBlock(s).rest|;
      assert ClosesAt(s[1..], n - 3);
      forall k | 0 <= k < n - 2 ensures !ClosesAt(s, k) {
        if k > 0 { assert !ClosesAt(s[1..], k - 1); }
      }
    }
  }

  lemma NewlineIsSpace(s: bytes, n: nat)
    requires n < |s| && s[n] == 0x0a
    ensures SkipSpace(s[n..]) == SkipSpace(s[n + 1..])
  {
    assert s[n..][1..] == s[n + 1..];
  }

  lemma LineLengthFrom(s: bytes, n: nat)
    requires 2 <= n <= |s| && (n == |s| || s[n] == 0x0a) && forall k | 2 <= k < n :: s[k] != 0x0a
    ensures LineLength(s[2..]) == n - 2
  {
    assert n < |s| ==> s[2..][n - 2] == s[n];
  }

  /** A consumed line comment, its newline included, is a gap piece, or it runs to the end. */
  lemma LineCommentSound(s: bytes) returns (tail: bytes)
    requires |s| >= 2 && s[0] == 0x2f && s[1] == 0x2f
    ensures |tail| < |s| && IsSuffix(tail, s) && SkipSpace(SkipComment(s).rest) == SkipSpace(tail)
    ensures IsLineComment(Consumed(s, tail)) || (tail == [] && IsOpenLine(s))
  {
    var n := 2 + LineLength(s[2..]);
    forall k | 2 <= k < n ensures s[k] != 0x0a {
      assert s[k] == s[2..][k - 2];
    }
    if n == |s| {
      tail := [];
      assert s[n..] == [];
    } else {
      tail := s[n + 1..];
      assert s[n] == s[2..][n - 2];
      NewlineIsSpace(s, n);
    }
  }

  lemma BlockCommentSound(s: bytes)
    requires |s| >= 2 && s[0] == 0x2f && s[1] == 0x2a && SkipBlock(s[2..]).Ok?
    ensures IsSuffix(SkipBlock(s[2..]).rest, s)
    ensures IsBlockComment(Consumed(s, SkipBlock(s[2..]).rest))
  {
    var p := Consumed(s, SkipBlock(s[2..]).rest);
    SkipBlockSound(s[2..]);
    assert ClosesAt(s[2..], |p| - 4);
    forall k | 2 <= k < |p| - 2 ensures !ClosesAt(p, k) {
      assert !ClosesAt(s[2..], k - 2);
    }
  }

  lemma OpenLineIsEndGap(s: bytes)
    requires IsOpenLine(s)
    ensures IsEndGap(Comments, s)
  {
    GapEmpty(Comments);
    assert s[..0] == [] && s[0..] == s;
  }

  /** From a first byte that is no space on: gaps in front of a token, or up to the end. */
  lemma {:induction false} SkipCommentsSound(s: bytes)
    requires SkipComments(s).Ok? && !IsSpace(Peek(s))
    ensures var t := SkipComments(s).rest;
            && IsSuffix(t, s)
            && (t != [] ==> IsGap(Comments, Consumed(s, t)) && TokenStart(Comments, t))
            && (t == [] ==> IsEndGap(Comments, Consumed(s, t)))
    decreases |s|
  {
    hide LineLength, SkipBlock, IsGap, IsLineComment, IsBlockComment, IsOpenLine;
    var t := SkipComments(s).rest;
    if Peek(s) != 0x2f {
      GapEmpty(Comments);
      assert t == s;
    } else {
      var tail := SkipComment(s).rest;
      if s[1] == 0x2f {
        tail := LineCommentSound(s);
      } else {
        BlockCommentSound(s);
      }
      SkipSpaceSound(Comments, tail);
      SkipCommentsSound(SkipSpace(tail));
      if IsGapPiece(Comments, Consumed(s, tail)) {
        GapPiece(Comments, Consumed(s, tail));
        ChainGaps(Comments, s, tail, SkipSpace(tail), t);
      } else {
        OpenLineIsEndGap(s);
        assert Consumed(s, t) == s;
      }
    }
  }

  lemma ChainGaps(st: Strategy, s: bytes, r: bytes, q: bytes, t: bytes)
    requires IsSuffix(r, s) && IsSuffix(q, r) && IsSuffix(t, q)
    requires IsGap(st, Consumed(s, r)) && IsGap(st, Consumed(r, q))
    ensures IsSuffix(t, s)
    ensures IsGap(st, Consumed(q, t)) ==> IsGap(st, Consumed(s, t))
    ensures IsEndGap(st, Consumed(q, t)) ==> IsEndGap(st, Consumed(s, t))
  {
    ConsumedTwice(s, r, q);
    ConsumedTwice(s, q, t);
    GapConcat(st, Consumed(s, r), Consumed(r, q));
    if IsGap(st, Consumed(q, t)) {
      GapConcat(st, Consumed(s, q), Consumed(q, t));
    } else if IsEndGap(st, Consumed(q, t)) {
      EndGapConcat(st, Consumed(s, q), Consumed(q, t));
    }
  }

  /** What consume_garbage skips is a gap; it stops at a token or at the end. */
  lemma SkipGapSound(st: Strategy, s: bytes)
    requires SkipGap(st, s).Ok?
    ensures var t := SkipGap(st, s).rest;
            && IsSuffix(t, s)
            && (t != [] ==> IsGap(st, Consumed(s, t)) && TokenStart(st, t))
            && (t == [] ==> IsEndGap(st, Consumed(s, t)))
  {
    SkipSpaceSound(st, s);
    if st.Comments? {
      var r := SkipSpace(s);
      SkipCommentsSound(r);
      GapEmpty(st);
      ChainGaps(st, s, s, r, SkipComments(r).rest);
    }
  }

  lemma {:induction false} SkipBlockComplete(s: bytes, n: nat)
    requires n + 2 <= |s| && ClosesAt(s, n)
    requires forall k | 0 <= k < n :: !ClosesAt(s, k)
    ensures SkipBlock(s) == Ok(true, s[n + 2..])
  {
    if n > 0 {
      forall k | 0 <= k < n - 1 ensures !ClosesAt(s[1..], k) {
        assert !ClosesAt(s, k + 1);
      }
      assert !ClosesAt(s, 0);
      SkipBlockComplete(s[1..], n - 1);
    }
  }

  lemma SkipLineCommentComplete(p: bytes, t: bytes)
    requires IsLineComment(p)
    ensures SkipGap(Comments, p + t) == SkipGap(Comments, t)
  {
    var s := p + t;
    LineLengthFrom(s, |p| - 1);
    NewlineIsSpace(s, |p| - 1);
    assert s[|p|..] == t;
    assert SkipComment(s) == Ok(true, s[|p| - 1..]);
  }

  lemma SkipBlockCommentComplete(p: bytes, t: bytes)
    requires IsBlockComment(p)
    ensures SkipGap(Comments, p + t) == SkipGap(Comments, t)
  {
    var s := p + t;
    var body := s[2..];
    var n := |p| - 4;
    assert body == p[2..] + t;
    assert body[n + 2..] == t;
    assert ClosesAt(p, n + 2);
    assert ClosesAt(body, n);
    forall k | 0 <= k < n ensures !ClosesAt(body, k) {
      assert !ClosesAt(p, k + 2);
    }
    SkipBlockComplete(body, n);
    assert SkipComment(s) == Ok(true, t);
  }

  lemma SkipPieceComplete(st: Strategy, p: bytes, t: bytes)
    requires IsGapPiece(st, p)
    ensures SkipGap(st, p + t) == SkipGap(st, t)
  {
    if |p| == 1 && IsSpace(p[0]) {
      assert (p + t)[1..] == t;
    } else if IsLineComment(p) {
      SkipLineCommentComplete(p, t);
    } else {
      SkipBlockCommentComplete(p, t);
    }
  }

  /** consume_garbage skips a gap in front of whatever follows. */
  lemma {:induction false} SkipPiecesComplete(st: Strategy, ps: seq<bytes>, t: bytes)
    requires GapPieces(st, ps)
    ensures SkipGap(st, Concat(ps) + t) == SkipGap(st, t)
  {
    if ps == [] {
      assert Concat(ps) + t == t;
    } else {
      assert Concat(ps) + t == ps[0] + (Concat(ps[1..]) + t);
      SkipPieceComplete(st, ps[0], Concat(ps[1..]) + t);
      SkipPiecesComplete(st, ps[1..], t);
    }
  }

  lemma SkipGapComplete(st: Strategy, g: bytes, t: bytes)
    requires IsGap(st, g)
    ensures SkipGap(st, g + t) == SkipGap(st, t)
  {
    var ps :| GapPieces(st, ps) && Concat(ps) == g;
    SkipPiecesComplete(st, ps, t);
  }

  lemma SkipEndGapComplete(st: Strategy, g: bytes)
    requires IsEndGap(st, g)
    ensures SkipGap(st, g) == Ok((), [])
  {
    if IsGap(st, g) {
      SkipGapComplete(st, g, []);
      assert g + [] == g;
    } else {
      var k :| 0 <= k <= |g| && IsGap(st, g[..k]) && IsOpenLine(g[k..]);
      var q := g[k..];
      assert g == g[..k] + q;
      SkipGapComplete(st, g[..k], q);
      SkipOpenLineComplete(q);
    }
  }

  lemma SkipOpenLineComplete(q: bytes)
    requires IsOpenLine(q)
    ensures SkipGap(Comments, q) == Ok((), [])
  {
    forall k | 0 <= k < |q| - 2 ensures q[2..][k] != 0x0a {
      assert q[2..][k] == q[k + 2];
    }
    assert LineLength(q[2..]) == |q| - 2;
    assert q[2..][|q| - 2..] == [];
    assert SkipComment(q) == Ok(true, []);
    assert SkipComments([]) == Ok((), []);
  }

  lemma TokenAfterGap(st: Strategy, g: bytes, t: bytes)
    requires IsGap(st, g) && TokenStart(st, t)
    ensures TokenAt(st, g + t) == Ok((), t) && Consumed(g + t, t) == g
  {
    SkipGapComplete(st, g, t);
    TokenHere(st, t);
  }

  lemma TokenHere(st: Strategy, t: bytes)
    requires TokenStart(st, t)
    ensures TokenAt(st, t) == Ok((), t)
  {
    assert SkipGap(st, t) == Ok((), t);
  }

  // ---- Strings ----

  lemma {:induction false} LexUnitsSound(s: bytes)
    requires LexUnits(s).Ok?
    ensures var Ok(us, rest) := LexUnits(s); UnitsOk(us) && s == UnitsText(us) + [0x22] + rest
    decreases |s|
  {
    var Ok(us, rest) := LexUnits(s);
    if s[0] == 0x22 {
      assert s == [] + [0x22] + rest;
    } else {
      var n := if s[0] != 0x5c then 1 else if s[1] == 0x75 then 6 else 2;
      var tail := LexUnits(s[n..]).v;
      LexUnitsSound(s[n..]);
      assert us == [us[0]] + tail;
      assert s[..n] == UnitText(us[0]);
      UnitsTextCons(us[0], tail, rest);
      assert s == s[..n] + s[n..];
    }
  }

  lemma UnitsTextCons(u: StringUnit, us: seq<StringUnit>, rest: bytes)
    ensures UnitsText([u] + us) + [0x22] + rest == UnitText(u) + (UnitsText(us) + [0x22] + rest)
  {
    assert ([u] + us)[1..] == us;
  }

  lemma {:induction false} LexUnitsComplete(us: seq<StringUnit>, rest: bytes)
    requires UnitsOk(us)
    ensures LexUnits(UnitsText(us) + [0x22] + rest) == Ok(us, rest)
  {
    if us == [] {
      assert UnitsText(us) + [0x22] + rest == [0x22] + rest;
    } else {
      var t := UnitsText(us[1..]) + [0x22] + rest;
      LexUnitsComplete(us[1..], rest);
      assert us == [us[0]] + us[1..];
      UnitsTextCons(us[0], us[1..], rest);
      LexUnitStep(us[0], t);
    }
  }

  lemma LexUnitStep(u: StringUnit, t: bytes)
    requires UnitOk(u)
    ensures LexUnits(UnitText(u) + t) == PrependUnit(u, LexUnits(t))
  {
    var s := UnitText(u) + t;
    assert s[|UnitText(u)|..] == t;
    if u.Code? {
      assert s[2..6] == u.hex;
    }
  }

  // ---- Numbers ----

  /** Nothing that could continue a number literal follows it. */
  predicate NumberEnds(rest: bytes) {
    !IsDigit(Peek(rest)) && Peek(rest) != 0x2e && Peek(rest) != 0x65 && Peek(rest) != 0x45
  }

  lemma {:induction false} DigitRunSound(s: bytes)
    ensures AllDigits(s[..DigitRun(s)]) && !IsDigit(At(s, DigitRun(s)))
  {
    if IsDigit(Peek(s)) {
      DigitRunSound(s[1..]);
      assert s[..DigitRun(s)] == [s[0]] + s[1..][..DigitRun(s[1..])];
    }
  }

  lemma {:induction false} DigitRunComplete(d: bytes, rest: bytes)
    requires AllDigits(d) && !IsDigit(Peek(rest))
    ensures DigitRun(d + rest) == |d|
  {
    if d == [] {
      assert d + rest == rest;
    } else {
      DigitRunComplete(d[1..], rest);
      assert (d + rest)[1..] == d[1..] + rest;
    }
  }

  lemma LexWholeSound(s: bytes)
    requires LexWhole(s).Ok?
    ensures var Ok(d, rest) := LexWhole(s);
            d != [] && AllDigits(d) && (d[0] == 0x30 ==> |d| == 1) && s == d + rest
  {
    DigitRunSound(s);
  }

  lemma LexFracSound(s: bytes)
    requires LexFrac(s).Ok?
    ensures var Ok(f, rest) := LexFrac(s); FracOk(f) && s == FracText(f) + rest
  {
    var Ok(f, rest) := LexFrac(s);
    if f.Some? {
      DigitRunSound(s[1..]);
      assert s[1..] == f.value + rest;
      assert s == [0x2e] + s[1..];
    }
  }

  lemma LexExpDigitsSound(mark: byte, sign: bytes, u: bytes)
    requires LexExpDigits(mark, sign, u).Ok?
    ensures var Ok(e, rest) := LexExpDigits(mark, sign, u);
            && e.Some? && e.value.mark == mark && e.value.sign == sign
            && e.value.digits != [] && AllDigits(e.value.digits) && u == e.value.digits + rest
  {
    DigitRunSound(u);
  }

  lemma LexExpSound(s: bytes)
    requires LexExp(s).Ok?
    ensures var Ok(e, rest) := LexExp(s); ExpOk(e) && s == ExpText(e) + rest
  {
    hide LexExpDigits;
    var Ok(e, rest) := LexExp(s);
    if Peek(s) == 0x65 || Peek(s) == 0x45 {
      var t := s[1..];
      var k := SignLength(t);
      LexExpDigitsSound(s[0], t[..k], t[k..]);
      assert k == 1 ==> t[..k] == [t[0]];
      assert k == 0 ==> t[..k] == [];
      assert t == t[..k] + t[k..];
      assert s == [s[0]] + t;
      Assoc([s[0]] + t[..k], e.value.digits, rest);
      Assoc([s[0]], t[..k], e.value.digits + rest);
    }
  }

  lemma LexNumberSound(s: bytes)
    requires LexNumber(s).Ok?
    ensures var Ok(n, rest) := LexNumber(s); NumberOk(n) && s == NumberText(n) + rest
  {
    hide LexWhole, LexFrac, LexExp, FracText, ExpText, NumberText, AllDigits, FracOk, ExpOk;
    var Ok(n, rest) := LexNumber(s);
    var t := if n.neg then s[1..] else s;
    var u := LexWhole(t).rest;
    var w := LexFrac(u).rest;
    LexWholeSound(t);
    LexFracSound(u);
    LexExpSound(w);
    NumberTextSplit(n, rest);
    assert s == (if n.neg then [0x2d] else []) + t;
  }

  lemma NumberTextSplit(n: Number, rest: bytes)
    ensures NumberText(n) + rest ==
            (if n.neg then [0x2d] else []) + (n.whole + (FracText(n.frac) + (ExpText(n.exp) + rest)))
  {
    var minus := if n.neg then [0x2d] else [];
    Assoc(minus + n.whole + FracText(n.frac), ExpText(n.exp), rest);
    Assoc(minus + n.whole, FracText(n.frac), ExpText(n.exp) + rest);
    Assoc(minus, n.whole, FracText(n.frac) + (ExpText(n.exp) + rest));
  }

  lemma LexWholeComplete(d: bytes, rest: bytes)
    requires d != [] && AllDigits(d) && (d[0] == 0x30 ==> |d| == 1) && !IsDigit(Peek(rest))
    ensures LexWhole(d + rest) == Ok(d, rest)
  {
    DigitRunComplete(d, rest);
    assert (d + rest)[|d|..] == rest;
    if d[0] == 0x30 {
      assert d == [0x30];
      assert (d + rest)[1..] == rest;
    }
  }

  lemma LexFracComplete(f: Option<bytes>, rest: bytes)
    requires FracOk(f) && !IsDigit(Peek(rest)) && (f.None? ==> Peek(rest) != 0x2e)
    ensures LexFrac(FracText(f) + rest) == Ok(f, rest)
  {
    var s := FracText(f) + rest;
    if f.None? {
      assert s == rest;
    } else {
      assert s[1..] == f.value + rest;
      DigitRunComplete(f.value, rest);
    }
  }

  lemma LexExpComplete(e: Option<Exponent>, rest: bytes)
    requires ExpOk(e) && NumberEnds(rest)
    ensures LexExp(ExpText(e) + rest) == Ok(e, rest)
  {
    hide DigitRun, AllDigits;
    var s := ExpText(e) + rest;
    if e.None? {
      assert s == rest;
    } else {
      var Exponent(mark, sign, digits) := e.value;
      var u := digits + rest;
      var t := sign + u;
      FirstDigit(digits);
      Assoc([mark] + sign, digits, rest);
      Assoc([mark], sign, u);
      assert s == [mark] + t && s[1..] == t;
      assert u[0] == digits[0];
      assert SignLength(t) == |sign|;
      assert t[|sign|..] == u && t[..|sign|] == sign;
      DigitRunComplete(digits, rest);
      assert u[..|digits|] == digits && u[|digits|..] == rest;
    }
  }

  lemma FirstDigit(d: bytes)
    requires d != [] && AllDigits(d)
    ensures IsDigit(d[0])
  {
  }

  lemma LexNumberComplete(n: Number, rest: bytes)
    requires NumberOk(n) && NumberEnds(rest)
    ensures LexNumber(NumberText(n) + rest) == Ok(n, rest)
  {
    hide LexWhole, LexFrac, LexExp, NumberText;
    var w := ExpText(n.exp) + rest;
    var u := FracText(n.frac) + w;
    var t := n.whole + u;
    NumberTextSplit(n, rest);
    assert n.neg ==> ([0x2d] + t)[1..] == t;
    assert !n.neg ==> [] + t == t;
    LexWholeComplete(n.whole, u);
    LexFracComplete(n.frac, w);
    LexExpComplete(n.exp, rest);
  }
}
