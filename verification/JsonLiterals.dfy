/** What number literals denote, said of their bytes. */
module JsonLiterals {
  import opened Bytes
  import opened JsonValue
  import opened JsonGrammar
  import opened JsonSyntax
  import opened JsonLexical
  import opened JsonDocument
  import opened Numerals
  import opened Powers
  import opened Doubles

  /** The bytes of a literal by its parts; no digits in a part mean that it is left out. */
  function LiteralText(minus: bool, whole: bytes, frac: bytes, mark: byte, sign: bytes, digits: bytes): bytes {
    (if minus then Ascii("-") else []) + whole
    + (if frac == [] then [] else Ascii(".") + frac)
    + (if digits == [] then [] else [mark] + sign + digits)
  }

  /** The whole part has no leading zero; the mark is an e in either case, and the sign is optional. */
  predicate LiteralOk(whole: bytes, frac: bytes, mark: byte, sign: bytes, digits: bytes) {
    && AllDigits(whole) && AllDigits(frac) && AllDigits(digits)
    && whole != [] && (whole[0] == 0x30 ==> |whole| == 1)
    && (mark == 0x65 || mark == 0x45) && (sign == [] || sign == Ascii("+") || sign == Ascii("-"))
  }

  /** The digits without the point, times ten to the power of the exponent less the digits behind the point. */
  function LiteralValue(minus: bool, whole: bytes, frac: bytes, sign: bytes, digits: bytes): real {
    var exp := if sign == Ascii("-") then -DigitsValue(digits) else DigitsValue(digits);
    var v := DigitsValue(whole + frac) as real * Ten(exp - |frac|);
    if minus then -v else v
  }

  /** A literal is read whole, as that value; a minus sign and nothing else makes the exponent negative. */
  lemma LiteralIsRead(minus: bool, whole: bytes, frac: bytes, mark: byte, sign: bytes, digits: bytes, rest: bytes)
    requires LiteralOk(whole, frac, mark, sign, digits) && NumberEnds(rest)
    ensures var r := LexNumber(LiteralText(minus, whole, frac, mark, sign, digits) + rest);
            r.Ok? && r.rest == rest && NumberValue(r.v) == LiteralValue(minus, whole, frac, sign, digits)
  {
    hide LexNumber, NumberText, LiteralText, NumberValue, LiteralValue;
    var n := Parts(minus, whole, frac, mark, sign, digits);
    PartsText(minus, whole, frac, mark, sign, digits);
    PartsValue(minus, whole, frac, mark, sign, digits);
    LexNumberComplete(n, rest);
  }

  function Parts(minus: bool, whole: bytes, frac: bytes, mark: byte, sign: bytes, digits: bytes): Number {
    Number(minus, whole, if frac == [] then None else Some(frac),
           if digits == [] then None else Some(Exponent(mark, sign, digits)))
  }

  lemma PartsText(minus: bool, whole: bytes, frac: bytes, mark: byte, sign: bytes, digits: bytes)
    ensures NumberText(Parts(minus, whole, frac, mark, sign, digits))
         == LiteralText(minus, whole, frac, mark, sign, digits)
  {
    assert Ascii("-") == [0x2d] && Ascii(".") == [0x2e];
  }

  lemma PartsValue(minus: bool, whole: bytes, frac: bytes, mark: byte, sign: bytes, digits: bytes)
    requires LiteralOk(whole, frac, mark, sign, digits)
    ensures NumberValue(Parts(minus, whole, frac, mark, sign, digits))
         == LiteralValue(minus, whole, frac, sign, digits)
    ensures NumberOk(Parts(minus, whole, frac, mark, sign, digits))
  {
    hide DigitsValue, Ten, AllDigits;
    assert Ascii("-") == [0x2d] && Ascii("+") == [0x2b];
    NoDigits();
  }

  lemma NoDigits()
    ensures DigitsValue([]) == 0
  {
  }

  /** As a document, a literal is the double for its value. */
  lemma LiteralIsParsed(st: Strategy, minus: bool, whole: bytes, frac: bytes, mark: byte, sign: bytes, digits: bytes)
    requires LiteralOk(whole, frac, mark, sign, digits)
    ensures var r := ParseDocument(st, LiteralText(minus, whole, frac, mark, sign, digits));
            r.Ok? && Value(r.v) == Num(RoundToDouble(LiteralValue(minus, whole, frac, sign, digits)))
  {
    hide LexNumber, LiteralText, LiteralValue, ParseDocument, RoundToDouble, NumberValue, LiteralOk;
    var text := LiteralText(minus, whole, frac, mark, sign, digits);
    LiteralIsRead(minus, whole, frac, mark, sign, digits, []);
    assert text + [] == text;
    LexNumberSound(text);
    var n := LexNumber(text).v;
    GapEmpty(st);
    var d := Document([], CNum(n), []);
    assert IsEndGap(st, []);
    assert NumberText(n) + [] == NumberText(n);
    assert DocumentText(d) == text;
    assert Height(d.value) == 0;
    DocumentComplete(st, d);
  }

  /** An exponent multiplies by a power of ten: of its digits, or of minus its digits behind a minus sign. */
  lemma ExponentScales(n: Number)
    requires NumberOk(n) && n.exp.Some?
    ensures var digits := DigitsValue(n.exp.value.digits);
            NumberValue(n)
            == NumberValue(n.(exp := None)) * Ten(if n.exp.value.sign == Ascii("-") then -digits else digits)
  {
    hide DigitsValue, Ten, AllDigits;
    var f := if n.frac.Some? then n.frac.value else [];
    var digits := DigitsValue(n.exp.value.digits);
    var k := if n.exp.value.sign == Ascii("-") then -digits else digits;
    var m := DigitsValue(n.whole + f) as real;
    TenAdd(-|f|, k);
    Group(m, Ten(-|f|), Ten(k));
    Group(-m, Ten(-|f|), Ten(k));
  }

  /** A point with n digits behind it divides by ten to the n, and a minus negates. */
  lemma PointShifts(n: Number, f: bytes)
    requires NumberOk(n) && n.exp.None? && n.frac == Some(f)
    ensures NumberValue(n) * Ten10(|f|) as real
         == if n.neg then -(DigitsValue(n.whole + f) as real) else DigitsValue(n.whole + f) as real
  {
    hide DigitsValue, Ten, AllDigits, Ten10;
    var m := DigitsValue(n.whole + f) as real;
    TenIsWhole(|f|);
    TenAdd(-|f|, |f|);
    TenZero();
    Group(m, Ten(-|f|), Ten(|f|));
    Group(-m, Ten(-|f|), Ten(|f|));
  }
}
