/** The code points that string escapes denote, and their UTF-8 form, against RFC 3629 and RFC 2781. */
module Utf8 {
  import opened Bytes
  import opened JsonValue
  import opened JsonGrammar
  import opened JsonStrings
  import opened JsonSyntax
  import opened JsonLexical
  import opened JsonDocument
  import opened Numerals

  /** The code point at the start of the bytes and its length: section 3 of RFC 3629, surrogates allowed. */
  function DecodeUtf8(s: bytes): (r: Option<(int, nat)>)
    ensures r.Some? ==> 0 < r.value.1 <= |s|
  {
    if s == [] then None
    else if s[0] < 0x80 then Some((s[0], 1))
    else if 0xc0 <= s[0] < 0xe0 && |s| >= 2 && Tail(s[1]) then
      Shortest(Bits(s[0], 0xc0) * 0x40 + Bits(s[1], 0x80), 2, 0x80)
    else if 0xe0 <= s[0] < 0xf0 && |s| >= 3 && Tail(s[1]) && Tail(s[2]) then
      Shortest(Bits(s[0], 0xe0) * 0x1000 + Bits(s[1], 0x80) * 0x40 + Bits(s[2], 0x80), 3, 0x800)
    else if 0xf0 <= s[0] < 0xf8 && |s| >= 4 && Tail(s[1]) && Tail(s[2]) && Tail(s[3]) then
      Shortest(Bits(s[0], 0xf0) * 0x40000 + Bits(s[1], 0x80) * 0x1000 + Bits(s[2], 0x80) * 0x40 + Bits(s[3], 0x80),
               4, 0x10000)
    else None
  }

  /** What is left of a byte without the marker in its top bits. */
  function Bits(b: byte, marker: int): int {
    b as int - marker
  }

  predicate Tail(b: byte) {
    0x80 <= b < 0xc0
  }

  /** Longer forms than needed are invalid, and so is what lies beyond U+10FFFF. */
  function Shortest(pt: int, length: nat, least: nat): Option<(int, nat)> {
    if least <= pt < 0x110000 then Some((pt, length)) else None
  }

  lemma SplitTwo(pt: nat)
    ensures pt == pt / 0x40 * 0x40 + pt % 0x40 && pt % 0x40 < 0x40
  {
  }

  lemma SplitThree(pt: nat)
    ensures pt == pt / 0x1000 * 0x1000 + pt / 0x40 % 0x40 * 0x40 + pt % 0x40
  {
    assert pt / 0x1000 == pt / 0x40 / 0x40;
  }

  lemma SplitFour(pt: nat)
    ensures pt == pt / 0x40000 * 0x40000 + pt / 0x1000 % 0x40 * 0x1000 + pt / 0x40 % 0x40 * 0x40 + pt % 0x40
  {
    SplitThree(pt);
    assert pt / 0x40000 == pt / 0x1000 / 0x40;
  }

  lemma TwoBytes(pt: nat, rest: bytes)
    requires 0x80 <= pt < 0x800
    ensures DecodeUtf8(EncodeUtf8(pt) + rest) == Some((pt, 2))
  {
    SplitTwo(pt);
  }

  lemma ThreeBytes(pt: nat, rest: bytes)
    requires 0x800 <= pt < 0x10000
    ensures DecodeUtf8(EncodeUtf8(pt) + rest) == Some((pt, 3))
  {
    SplitThree(pt);
  }

  lemma FourBytes(pt: nat, rest: bytes)
    requires 0x10000 <= pt < 0x110000
    ensures DecodeUtf8(EncodeUtf8(pt) + rest) == Some((pt, 4))
  {
    SplitFour(pt);
  }

  /** The bytes that are appended for a code point decode to it, in the shortest form there is. */
  lemma Utf8RoundTrip(pt: nat, rest: bytes)
    requires pt < 0x110000
    ensures DecodeUtf8(EncodeUtf8(pt) + rest) == Some((pt, |EncodeUtf8(pt)|))
  {
    if 0x80 <= pt < 0x800 {
      TwoBytes(pt, rest);
    } else if 0x800 <= pt < 0x10000 {
      ThreeBytes(pt, rest);
    } else if 0x10000 <= pt {
      FourBytes(pt, rest);
    }
  }

  /** A surrogate pair is the UTF-16 form (RFC 2781, section 2.1) of exactly one supplementary code point. */
  lemma PairIsUtf16(pt: nat, high: nat, low: nat)
    requires IsHigh(high) && IsLow(low)
    ensures 0x10000 <= Combine(high, low) < 0x110000
    ensures Combine(high, low) == pt <==>
      0x10000 <= pt < 0x110000 && high == 0xd800 + (pt - 0x10000) / 0x400 && low == 0xdc00 + (pt - 0x10000) % 0x400
  {
  }

  // ---- Texts ----

  /** Unicode scalar values: code points that are no surrogates. */
  predicate IsScalar(pt: nat) {
    pt < 0x110000 && !(0xd800 <= pt <= 0xdfff)
  }

  /** The code units of a code point in UTF-16, as string escapes spell them. */
  function Units(pt: nat): seq<nat> {
    if pt < 0x10000 then [pt] else [0xd800 + (pt - 0x10000) / 0x400, 0xdc00 + (pt - 0x10000) % 0x400]
  }

  function AllUnits(pts: seq<nat>): seq<nat> {
    if pts == [] then [] else Units(pts[0]) + AllUnits(pts[1..])
  }

  function AsPieces(us: seq<nat>): seq<Piece> {
    seq(|us|, k requires 0 <= k < |us| => Utf16(us[k]))
  }

  function Utf8Text(pts: seq<nat>): bytes
    requires forall k | 0 <= k < |pts| :: IsScalar(pts[k])
  {
    if pts == [] then []
    else
      assert IsScalar(pts[0]);
      EncodeUtf8(pts[0]) + Utf8Text(pts[1..])
  }

  function DecodeUtf8Text(s: bytes): Option<seq<int>> {
    match DecodeUtf8(s)
    case None => if s == [] then Some([]) else None
    case Some((pt, n)) =>
      match DecodeUtf8Text(s[n..])
      case None => None
      case Some(pts) => Some([pt] + pts)
  }

  lemma JoinUnits(pt: nat, ps: seq<Piece>)
    requires IsScalar(pt) && InRange(ps)
    ensures InRange(AsPieces(Units(pt)) + ps) && Join(AsPieces(Units(pt)) + ps) == EncodeUtf8(pt) + Join(ps)
  {
    hide EncodeUtf8;
    var us := AsPieces(Units(pt)) + ps;
    if pt < 0x10000 {
      assert us[1..] == ps;
    } else {
      PairIsUtf16(pt, us[0].u, us[1].u);
      assert us[2..] == ps;
    }
  }

  lemma {:induction false} UnitsSpellText(pts: seq<nat>)
    requires forall k | 0 <= k < |pts| :: IsScalar(pts[k])
    ensures InRange(AsPieces(AllUnits(pts))) && Join(AsPieces(AllUnits(pts))) == Utf8Text(pts)
    ensures DecodeUtf8Text(Utf8Text(pts)) == Some(pts)
  {
    hide EncodeUtf8, DecodeUtf8, Units, Join;
    if pts == [] {
      NoText();
      assert AsPieces(AllUnits(pts)) == [];
    } else {
      var rest := Utf8Text(pts[1..]);
      UnitsSpellText(pts[1..]);
      JoinUnits(pts[0], AsPieces(AllUnits(pts[1..])));
      assert AsPieces(AllUnits(pts)) == AsPieces(Units(pts[0])) + AsPieces(AllUnits(pts[1..]));
      Utf8RoundTrip(pts[0], rest);
      assert (EncodeUtf8(pts[0]) + rest)[|EncodeUtf8(pts[0])|..] == rest;
      assert pts == [pts[0]] + pts[1..];
    }
  }

  lemma NoText()
    ensures Join([]) == [] && DecodeUtf8([]) == None
  {
  }

  // ---- Escapes, with hexadecimal digits in either case ----

  /** The four hexadecimal digits of a code unit. */
  function Hex4(u: nat): bytes
    requires u < 0x10000
  {
    [HexDigit(u / 0x1000), HexDigit(u / 0x100 % 16), HexDigit(u / 0x10 % 16), HexDigit(u % 16)]
  }

  /** The letters A to F as a to f. */
  function Folded(h: bytes): bytes {
    seq(|h|, k requires 0 <= k < |h| => if 0x41 <= h[k] <= 0x46 then h[k] + 0x20 else h[k])
  }

  lemma FoldedDigit(c: byte, d: nat)
    requires d < 16
    ensures (if 0x41 <= c <= 0x46 then c + 0x20 else c) == HexDigit(d) <==> IsHex(c) && HexValue(c) == d
    ensures IsHex(c) ==> HexValue(c) < 16
  {
  }

  lemma SplitHex(u: nat, a: nat, b: nat, c: nat, d: nat)
    requires a < 16 && b < 16 && c < 16 && d < 16
    ensures u == 0x1000 * a + 0x100 * b + 0x10 * c + d
       <==> u / 0x1000 == a && u / 0x100 % 16 == b && u / 0x10 % 16 == c && u % 16 == d
  {
    var x, y := 0x10 * a + b, 0x100 * a + 0x10 * b + c;
    assert u / 0x100 == u / 0x10 / 16 && u / 0x1000 == u / 0x100 / 16;
    if u == 0x1000 * a + 0x100 * b + 0x10 * c + d {
      assert u == 16 * y + d && u / 16 == y;
      assert y == 16 * x + c && y / 16 == x;
    }
  }

  /** Four bytes are read as a code unit exactly when they are its hexadecimal digits, in either case. */
  lemma HexInEitherCase(h: bytes, u: nat)
    requires u < 0x10000
    ensures Folded(h) == Hex4(u) <==> IsHex4(h) && CodeValue(h) == u
  {
    hide HexDigit, HexValue, IsHex;
    if |h| == 4 {
      FoldedDigit(h[0], u / 0x1000);
      FoldedDigit(h[1], u / 0x100 % 16);
      FoldedDigit(h[2], u / 0x10 % 16);
      FoldedDigit(h[3], u % 16);
      if IsHex4(h) { SplitHex(u, HexValue(h[0]), HexValue(h[1]), HexValue(h[2]), HexValue(h[3])); }
      var f, g := Folded(h), Hex4(u);
      assert f == g <==> f[0] == g[0] && f[1] == g[1] && f[2] == g[2] && f[3] == g[3];
    }
  }

  predicate AreUnits(us: seq<nat>) {
    forall k | 0 <= k < |us| :: us[k] < 0x10000
  }

  /** The digits behind the backslashes are those of the code units. */
  predicate Spell(hs: seq<bytes>, us: seq<nat>) {
    |hs| == |us| && AreUnits(us) && forall k | 0 <= k < |us| :: Folded(hs[k]) == Hex4(us[k])
  }

  function EscapeText(hs: seq<bytes>): bytes {
    if hs == [] then [] else Ascii("\\u") + hs[0] + EscapeText(hs[1..])
  }

  function Codes(hs: seq<bytes>): seq<StringUnit> {
    seq(|hs|, k requires 0 <= k < |hs| => Code(hs[k]))
  }

  lemma {:induction false} CodesSpell(hs: seq<bytes>, us: seq<nat>)
    requires Spell(hs, us)
    ensures UnitsOk(Codes(hs)) && Pieces(Codes(hs)) == AsPieces(us) && UnitsText(Codes(hs)) == EscapeText(hs)
  {
    hide Folded, Hex4, IsHex4, CodeValue, UnitsText, Pieces;
    NilUnits();
    if hs != [] {
      assert Folded(hs[0]) == Hex4(us[0]);
      HexInEitherCase(hs[0], us[0]);
      CodesSpell(hs[1..], us[1..]);
      assert Codes(hs) == [Code(hs[0])] + Codes(hs[1..]);
      ConsUnits(Code(hs[0]), Codes(hs[1..]));
      assert AsPieces(us) == [Utf16(us[0])] + AsPieces(us[1..]);
    } else {
      assert Codes(hs) == [] && AsPieces(us) == [];
    }
  }

  /**
   A string of \u escapes with the hexadecimal digits of a Unicode text in UTF-16, in either case, is
   read up to its quote as that text in UTF-8.
   */
  lemma EscapesSpellText(hs: seq<bytes>, pts: seq<nat>, rest: bytes)
    requires Spell(hs, AllUnits(pts)) && forall k | 0 <= k < |pts| :: IsScalar(pts[k])
    ensures var r := LexUnits(EscapeText(hs) + [0x22] + rest);
            r.Ok? && r.rest == rest && StringValue(r.v) == Utf8Text(pts)
    ensures DecodeUtf8Text(Utf8Text(pts)) == Some(pts)
  {
    hide AllUnits, Spell, EncodeUtf8, LexUnits, Utf8Text, DecodeUtf8Text, Codes, EscapeText;
    CodesSpell(hs, AllUnits(pts));
    LexUnitsComplete(Codes(hs), rest);
    UnitsSpellText(pts);
  }

  /** Every Unicode text can be spelled. */
  lemma {:induction false} TextHasSpelling(pts: seq<nat>) returns (hs: seq<bytes>)
    requires forall k | 0 <= k < |pts| :: IsScalar(pts[k])
    ensures Spell(hs, AllUnits(pts)) && |EscapeText(hs)| == 6 * |AllUnits(pts)|
  {
    hide Hex4, Folded;
    UnitsSpellText(pts);
    var us := AllUnits(pts);
    forall k | 0 <= k < |us| ensures us[k] < 0x10000 {
      assert AsPieces(us)[k].u < 0x10000;
    }
    hs := seq(|us|, k requires 0 <= k < |us| => Hex4(us[k]));
    forall k | 0 <= k < |us| ensures |hs[k]| == 4 && Folded(hs[k]) == Hex4(us[k]) {
      LowerCase(us[k]);
    }
    EscapeLength(hs);
  }

  lemma LowerCase(u: nat)
    requires u < 0x10000
    ensures |Hex4(u)| == 4 && Folded(Hex4(u)) == Hex4(u)
  {
  }

  lemma {:induction false} EscapeLength(hs: seq<bytes>)
    requires forall k | 0 <= k < |hs| :: |hs[k]| == 4
    ensures |EscapeText(hs)| == 6 * |hs|
  {
    if hs != [] { EscapeLength(hs[1..]); }
  }

  // ---- Strings of any spelling ----

  /** A part of a string: a byte as it is, one of the eight letters behind a backslash, or a code point escaped. */
  datatype Spelling = Plain(b: byte) | Letter(k: nat) | Escaped(pt: nat, hs: seq<bytes>)

  /** The letters of the simple escapes, and what they stand for. */
  function LetterAt(k: nat): byte
    requires k < 8
  {
    Ascii("bfnrt\"\\/")[k]
  }

  function MeaningAt(k: nat): byte
    requires k < 8
  {
    [0x08, 0x0c, 0x0a, 0x0d, 0x09, 0x22, 0x5c, 0x2f][k]
  }

  lemma LettersAreEscapes(k: nat)
    requires k < 8
    ensures IsEscapeLetter(LetterAt(k)) && EscapedByte(LetterAt(k)) == MeaningAt(k)
  {
  }

  predicate SpellingOk(x: Spelling) {
    match x
    case Plain(b) => b >= 0x20 && b != 0x22 && b != 0x5c
    case Letter(k) => k < 8
    case Escaped(pt, hs) => IsScalar(pt) && Spell(hs, Units(pt))
  }

  function SpellingText(x: Spelling): bytes
    requires SpellingOk(x)
  {
    match x
    case Plain(b) => [b]
    case Letter(k) => [0x5c, LetterAt(k)]
    case Escaped(pt, hs) => EscapeText(hs)
  }

  function SpellingBytes(x: Spelling): bytes
    requires SpellingOk(x)
  {
    match x
    case Plain(b) => [b]
    case Letter(k) => [MeaningAt(k)]
    case Escaped(pt, hs) => EncodeUtf8(pt)
  }

  predicate SpellingsOk(xs: seq<Spelling>) {
    forall k | 0 <= k < |xs| :: SpellingOk(xs[k])
  }

  function SpelledText(xs: seq<Spelling>): bytes
    requires SpellingsOk(xs)
  {
    if xs == [] then [] else SpellingText(xs[0]) + SpelledText(xs[1..])
  }

  function SpelledBytes(xs: seq<Spelling>): bytes
    requires SpellingsOk(xs)
  {
    if xs == [] then [] else SpellingBytes(xs[0]) + SpelledBytes(xs[1..])
  }

  function UnitsOf(x: Spelling): seq<StringUnit>
    requires SpellingOk(x)
  {
    match x
    case Plain(b) => [Raw(b)]
    case Letter(k) => [Simple(LetterAt(k))]
    case Escaped(pt, hs) => Codes(hs)
  }

  lemma SpellingUnits(x: Spelling, ps: seq<Piece>)
    requires SpellingOk(x) && InRange(ps)
    ensures UnitsOk(UnitsOf(x)) && UnitsText(UnitsOf(x)) == SpellingText(x)
    ensures InRange(Pieces(UnitsOf(x)) + ps) && Join(Pieces(UnitsOf(x)) + ps) == SpellingBytes(x) + Join(ps)
  {
    hide EncodeUtf8, Units, Spell, Codes, EscapeText, IsScalar, UnitsText, Pieces, LetterAt, MeaningAt;
    hide IsEscapeLetter, EscapedByte, IsHex4, CodeValue;
    if x.Escaped? {
      CodesSpell(x.hs, Units(x.pt));
      JoinUnits(x.pt, ps);
    } else {
      var u := UnitsOf(x)[0];
      if x.Letter? { LettersAreEscapes(x.k); }
      assert UnitsOf(x) == [u] + [];
      ConsUnits(u, []);
      NilUnits();
      assert UnitText(u) + [] == UnitText(u) && [PieceOf(u)] + [] == [PieceOf(u)];
      assert ([PieceOf(u)] + ps)[1..] == ps;
    }
  }

  lemma {:induction false} SpelledUnits(xs: seq<Spelling>) returns (us: seq<StringUnit>)
    requires SpellingsOk(xs)
    ensures UnitsOk(us) && UnitsText(us) == SpelledText(xs) && StringValue(us) == SpelledBytes(xs)
  {
    hide SpellingOk, SpellingText, SpellingBytes, UnitsOf, Join, PieceOf, UnitOk;
    if xs == [] {
      us := [];
      NoText();
    } else {
      var vs := SpelledUnits(xs[1..]);
      us := UnitsOf(xs[0]) + vs;
      SpellingUnits(xs[0], Pieces(vs));
      AppendUnits(UnitsOf(xs[0]), vs);
    }
  }

  lemma NilUnits()
    ensures UnitsText([]) == [] && Pieces([]) == []
  {
  }

  lemma ConsUnits(u: StringUnit, us: seq<StringUnit>)
    ensures UnitsText([u] + us) == UnitText(u) + UnitsText(us) && Pieces([u] + us) == [PieceOf(u)] + Pieces(us)
  {
    assert ([u] + us)[1..] == us;
  }

  lemma {:induction false} AppendUnits(us: seq<StringUnit>, vs: seq<StringUnit>)
    ensures UnitsText(us + vs) == UnitsText(us) + UnitsText(vs) && Pieces(us + vs) == Pieces(us) + Pieces(vs)
  {
    hide PieceOf, UnitText, UnitsText, Pieces;
    NilUnits();
    if us == [] {
      assert us + vs == vs;
      assert [] + UnitsText(vs) == UnitsText(vs) && [] + Pieces(vs) == Pieces(vs);
    } else {
      var tail := us[1..] + vs;
      AppendUnits(us[1..], vs);
      assert us + vs == [us[0]] + tail;
      ConsUnits(us[0], tail);
      ConsUnits(us[0], us[1..]);
      assert us == [us[0]] + us[1..];
      Assoc(UnitText(us[0]), UnitsText(us[1..]), UnitsText(vs));
      assert [PieceOf(us[0])] + (Pieces(us[1..]) + Pieces(vs)) == [PieceOf(us[0])] + Pieces(us[1..]) + Pieces(vs);
    }
  }

  /** A string is read as the bytes that its parts stand for, whichever way each of them is spelled. */
  lemma SpelledStringIsRead(st: Strategy, xs: seq<Spelling>)
    requires SpellingsOk(xs)
    ensures var r := ParseDocument(st, [0x22] + (SpelledText(xs) + [0x22]));
            r.Ok? && Value(r.v) == Str(SpelledBytes(xs))
  {
    hide SpelledText, SpelledBytes, ParseDocument;
    var us := SpelledUnits(xs);
    var d := Document([], CStr(us), []);
    GapEmpty(st);
    assert Height(d.value) == 0;
    assert IsEndGap(st, []);
    assert DocumentText(d) == [0x22] + (SpelledText(xs) + [0x22]);
    DocumentComplete(st, d);
  }
}
