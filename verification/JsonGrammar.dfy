/**
 The grammar of RFC 8259 sections 2 to 7 as concrete syntax trees: what a tree looks like as
 text, which trees are well formed, and the value a tree denotes. Under the Comments strategy
 the gaps between tokens may hold comments as well as whitespace.
 */
module JsonGrammar {
  import opened Bytes
  import opened JsonValue
  import opened Numerals
  import opened Powers
  import opened Doubles

  datatype Strategy = Standard | Comments

  const MAX_DEPTH: nat := 200

  // ---- Gaps: whitespace and comments (RFC 8259 section 2) ----

  predicate IsSpace(b: byte) {
    b == 0x20 || b == 0x0d || b == 0x0a || b == 0x09
  }

  /** From two slashes up to and including the end of the line. */
  predicate IsLineComment(p: bytes) {
    && |p| >= 3 && p[0] == 0x2f && p[1] == 0x2f && p[|p| - 1] == 0x0a
    && forall k | 2 <= k < |p| - 1 :: p[k] != 0x0a
  }

  predicate ClosesAt(p: bytes, k: nat)
    requires k + 1 < |p|
  {
    p[k] == 0x2a && p[k + 1] == 0x2f
  }

  /** From slash-star up to and including the first star-slash after it. */
  predicate IsBlockComment(p: bytes) {
    && |p| >= 4 && p[0] == 0x2f && p[1] == 0x2a && ClosesAt(p, |p| - 2)
    && forall k | 2 <= k < |p| - 2 :: !ClosesAt(p, k)
  }

  predicate IsGapPiece(st: Strategy, p: bytes) {
    || (|p| == 1 && IsSpace(p[0]))
    || (st.Comments? && (IsLineComment(p) || IsBlockComment(p)))
  }

  predicate GapPieces(st: Strategy, ps: seq<bytes>) {
    forall k | 0 <= k < |ps| :: IsGapPiece(st, ps[k])
  }

  function Concat(ps: seq<bytes>): bytes {
    if ps == [] then [] else ps[0] + Concat(ps[1..])
  }

  /** A sequence of whitespace characters and complete comments. */
  ghost predicate IsGap(st: Strategy, w: bytes) {
    exists ps :: GapPieces(st, ps) && Concat(ps) == w
  }

  /** A last line comment that the end of the input cuts short. */
  predicate IsOpenLine(w: bytes) {
    |w| >= 2 && w[0] == 0x2f && w[1] == 0x2f && forall k | 2 <= k < |w| :: w[k] != 0x0a
  }

  /** The gap after the last value may end in an open line comment. */
  ghost predicate IsEndGap(st: Strategy, w: bytes) {
    || IsGap(st, w)
    || (st.Comments? && exists k | 0 <= k <= |w| :: IsGap(st, w[..k]) && IsOpenLine(w[k..]))
  }

  // ---- Strings (RFC 8259 section 7) ----

  datatype StringUnit = Raw(b: byte) | Simple(letter: byte) | Code(hex: bytes)

  predicate IsHex(b: byte) {
    0x61 <= b <= 0x66 || 0x41 <= b <= 0x46 || 0x30 <= b <= 0x39
  }

  predicate IsHex4(h: bytes) {
    |h| == 4 && IsHex(h[0]) && IsHex(h[1]) && IsHex(h[2]) && IsHex(h[3])
  }

  predicate IsEscapeLetter(c: byte) {
    || c == 0x62 || c == 0x66 || c == 0x6e || c == 0x72 || c == 0x74
    || c == 0x22 || c == 0x5c || c == 0x2f
  }

  predicate UnitOk(u: StringUnit) {
    match u
    case Raw(b) => b >= 0x20 && b != 0x22 && b != 0x5c
    case Simple(c) => IsEscapeLetter(c)
    case Code(h) => IsHex4(h)
  }

  predicate UnitsOk(us: seq<StringUnit>) {
    forall k | 0 <= k < |us| :: UnitOk(us[k])
  }

  function UnitText(u: StringUnit): bytes {
    match u
    case Raw(b) => [b]
    case Simple(c) => [0x5c, c]
    case Code(h) => [0x5c, 0x75] + h
  }

  function UnitsText(us: seq<StringUnit>): bytes {
    if us == [] then [] else UnitText(us[0]) + UnitsText(us[1..])
  }

  function StringText(us: seq<StringUnit>): bytes {
    [0x22] + (UnitsText(us) + [0x22])
  }

  /** First pass: every unit stands for one byte or one UTF-16 code unit. */
  datatype Piece = Byte(b: byte) | Utf16(u: nat)

  function EscapedByte(letter: byte): byte {
    if letter == 0x62 then 0x08
    else if letter == 0x66 then 0x0c
    else if letter == 0x6e then 0x0a
    else if letter == 0x72 then 0x0d
    else if letter == 0x74 then 0x09
    else letter
  }

  function HexValue(h: byte): nat {
    if 0x61 <= h <= 0x66 then h - 0x61 + 10
    else if 0x41 <= h <= 0x46 then h - 0x41 + 10
    else if IsDigit(h) then h - 0x30
    else 0
  }

  function CodeValue(h: bytes): (u: nat)
    requires IsHex4(h)
    ensures u < 0x10000
  {
    0x1000 * HexValue(h[0]) + 0x100 * HexValue(h[1]) + 0x10 * HexValue(h[2]) + HexValue(h[3])
  }

  function PieceOf(u: StringUnit): Piece {
    match u
    case Raw(b) => Byte(b)
    case Simple(c) => Byte(EscapedByte(c))
    case Code(h) => Utf16(if IsHex4(h) then CodeValue(h) else 0)
  }

  function Pieces(us: seq<StringUnit>): (ps: seq<Piece>)
    ensures forall k | 0 <= k < |ps| && ps[k].Utf16? :: ps[k].u < 0x10000
  {
    if us == [] then [] else [PieceOf(us[0])] + Pieces(us[1..])
  }

  predicate IsHigh(u: int) { 0xd800 <= u <= 0xdbff }

  predicate IsLow(u: int) { 0xdc00 <= u <= 0xdfff }

  function Combine(high: int, low: int): int {
    (high - 0xd800) * 0x400 + (low - 0xdc00) + 0x10000
  }

  /** encode_utf8: shifts and masks are divisions and remainders, and the or of disjoint bits is a sum. */
  function EncodeUtf8(pt: int): bytes
    requires pt < 0x110000
  {
    if pt < 0 then []
    else if pt < 0x80 then [pt]
    else if pt < 0x800 then [pt / 0x40 + 0xc0, pt % 0x40 + 0x80]
    else if pt < 0x10000 then [pt / 0x1000 + 0xe0, pt / 0x40 % 0x40 + 0x80, pt % 0x40 + 0x80]
    else [pt / 0x40000 + 0xf0, pt / 0x1000 % 0x40 + 0x80, pt / 0x40 % 0x40 + 0x80, pt % 0x40 + 0x80]
  }

  /** Second pass: adjacent high and low surrogates join, from left to right; the rest encodes alone. */
  function Join(ps: seq<Piece>): bytes
    requires forall k | 0 <= k < |ps| && ps[k].Utf16? :: ps[k].u < 0x10000
  {
    if ps == [] then []
    else match ps[0]
      case Byte(b) => [b] + Join(ps[1..])
      case Utf16(u) =>
        if IsHigh(u) && |ps| > 1 && ps[1].Utf16? && IsLow(ps[1].u)
        then EncodeUtf8(Combine(u, ps[1].u)) + Join(ps[2..])
        else EncodeUtf8(u) + Join(ps[1..])
  }

  /** The contents of the string token. */
  function StringValue(us: seq<StringUnit>): bytes {
    Join(Pieces(us))
  }

  // ---- Numbers (RFC 8259 section 6) ----

  datatype Exponent = Exponent(mark: byte, sign: bytes, digits: bytes)

  datatype Number = Number(neg: bool, whole: bytes, frac: Option<bytes>, exp: Option<Exponent>)

  predicate FracOk(f: Option<bytes>) {
    f.Some? ==> f.value != [] && AllDigits(f.value)
  }

  predicate ExpOk(e: Option<Exponent>) {
    e.Some? ==>
      && (e.value.mark == 0x65 || e.value.mark == 0x45)
      && (e.value.sign == [] || e.value.sign == [0x2b] || e.value.sign == [0x2d])
      && e.value.digits != [] && AllDigits(e.value.digits)
  }

  predicate NumberOk(n: Number) {
    && n.whole != [] && AllDigits(n.whole) && (n.whole[0] == 0x30 ==> |n.whole| == 1)
    && FracOk(n.frac) && ExpOk(n.exp)
  }

  function FracText(f: Option<bytes>): bytes {
    if f.None? then [] else [0x2e] + f.value
  }

  function ExpText(e: Option<Exponent>): bytes {
    if e.None? then [] else [e.value.mark] + e.value.sign + e.value.digits
  }

  function NumberText(n: Number): bytes {
    (if n.neg then [0x2d] else []) + n.whole + FracText(n.frac) + ExpText(n.exp)
  }

  function ExpValue(e: Option<Exponent>): int {
    if e.None? then 0
    else if e.value.sign == [0x2d] then -DigitsValue(e.value.digits)
    else DigitsValue(e.value.digits)
  }

  /** The decimal value of the literal. */
  function NumberValue(n: Number): real {
    var f := if n.frac.Some? then n.frac.value else [];
    var v := DigitsValue(n.whole + f) as real * Ten(ExpValue(n.exp) - |f|);
    if n.neg then -v else v
  }

  // ---- Values (RFC 8259 sections 3 to 5) ----

  datatype Cst =
    | CNull
    | CBool(b: bool)
    | CNum(n: Number)
    | CStr(us: seq<StringUnit>)
    | CArrEmpty(gap: bytes)
    | CArr(items: seq<CItem>)
    | CObjEmpty(gap: bytes)
    | CObj(members: seq<CMember>)

  datatype CItem = CItem(pre: bytes, value: Cst, post: bytes)

  datatype CMember = CMember(pre: bytes, key: seq<StringUnit>, mid: bytes, gap: bytes, value: Cst, post: bytes)

  const TRUE: bytes := Ascii("true")

  const FALSE: bytes := Ascii("false")

  const NULL: bytes := Ascii("null")

  function Text(c: Cst): bytes
    decreases c, 1
  {
    match c
    case CNull => NULL
    case CBool(b) => if b then TRUE else FALSE
    case CNum(n) => NumberText(n)
    case CStr(us) => StringText(us)
    case CArrEmpty(g) => [0x5b] + (g + [0x5d])
    case CArr(items) => [0x5b] + ItemsText(items)
    case CObjEmpty(g) => [0x7b] + (g + [0x7d])
    case CObj(ms) => [0x7b] + MembersText(ms)
  }

  /** The items with their separators and the closing bracket. */
  function ItemsText(items: seq<CItem>): bytes
    decreases items, 1
  {
    if items == [] then []
    else items[0].pre + (Text(items[0].value) + (items[0].post + AfterItem(items)))
  }

  /** What follows the first item: the closing bracket, or a comma and the other items. */
  function AfterItem(items: seq<CItem>): bytes
    requires items != []
    decreases items, 0
  {
    if |items| == 1 then [0x5d] else [0x2c] + ItemsText(items[1..])
  }

  /** The members with their separators and the closing brace. */
  function MembersText(ms: seq<CMember>): bytes
    decreases ms, 1
  {
    if ms == [] then []
    else
      var m := ms[0];
      m.pre + (StringText(m.key) + (m.mid + ([0x3a] + (m.gap + (Text(m.value) + (m.post + AfterMember(ms)))))))
  }

  function AfterMember(ms: seq<CMember>): bytes
    requires ms != []
    decreases ms, 0
  {
    if |ms| == 1 then [0x7d] else [0x2c] + MembersText(ms[1..])
  }

  ghost predicate CstOk(st: Strategy, c: Cst) {
    match c
    case CNum(n) => NumberOk(n)
    case CStr(us) => UnitsOk(us)
    case CArrEmpty(g) => IsGap(st, g)
    case CObjEmpty(g) => IsGap(st, g)
    case CArr(items) => items != [] && ItemsOk(st, items)
    case CObj(ms) => ms != [] && MembersOk(st, ms)
    case _ => true
  }

  ghost predicate ItemsOk(st: Strategy, items: seq<CItem>) {
    items == [] || (
      && IsGap(st, items[0].pre) && IsGap(st, items[0].post)
      && CstOk(st, items[0].value) && ItemsOk(st, items[1..]))
  }

  ghost predicate MembersOk(st: Strategy, ms: seq<CMember>) {
    ms == [] || (
      && IsGap(st, ms[0].pre) && IsGap(st, ms[0].mid) && IsGap(st, ms[0].gap) && IsGap(st, ms[0].post)
      && UnitsOk(ms[0].key) && CstOk(st, ms[0].value) && MembersOk(st, ms[1..]))
  }

  function Max(a: nat, b: nat): nat {
    if a < b then b else a
  }

  /** Nesting: 0 for scalars and empty containers, one more than the deepest child otherwise. */
  function Height(c: Cst): nat {
    match c
    case CArr(items) => 1 + ItemsHeight(items)
    case CObj(ms) => 1 + MembersHeight(ms)
    case _ => 0
  }

  function ItemsHeight(items: seq<CItem>): nat {
    if items == [] then 0 else Max(Height(items[0].value), ItemsHeight(items[1..]))
  }

  function MembersHeight(ms: seq<CMember>): nat {
    if ms == [] then 0 else Max(Height(ms[0].value), MembersHeight(ms[1..]))
  }

  /** The JSON value of a tree. A number is rounded to double, and a repeated key takes its last value. */
  function Value(c: Cst): Json {
    match c
    case CNull => Nul
    case CBool(b) => Bool(b)
    case CNum(n) => Num(RoundToDouble(NumberValue(n)))
    case CStr(us) => Str(StringValue(us))
    case CArrEmpty(_) => Arr([])
    case CArr(items) => Arr(ItemValues(items))
    case CObjEmpty(_) => Obj([])
    case CObj(ms) => Obj(MapOf(MemberValues(ms)))
  }

  function ItemValues(items: seq<CItem>): seq<Json> {
    if items == [] then [] else [Value(items[0].value)] + ItemValues(items[1..])
  }

  function MemberValues(ms: seq<CMember>): seq<Member> {
    if ms == [] then []
    else [Member(StringValue(ms[0].key), Value(ms[0].value))] + MemberValues(ms[1..])
  }

  /** A whole document: one value with gaps around it. */
  datatype Document = Document(pre: bytes, value: Cst, post: bytes)

  function DocumentText(d: Document): bytes {
    d.pre + Text(d.value) + d.post
  }

  ghost predicate DocumentOk(st: Strategy, d: Document) {
    IsGap(st, d.pre) && CstOk(st, d.value) && IsEndGap(st, d.post)
  }
}
