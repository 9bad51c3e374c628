/**
 The parser as a function: from the input that is left, and the nesting depth, to the concrete
 syntax tree it reads and the input after it, or to the first error.
 */
module JsonSyntax {
  import opened Bytes
  import opened JsonValue
  import opened JsonGrammar

  /** The error messages, one constructor each. */
  datatype ParseError =
    | UnexpectedEnd
    | CommentCutShort
    | CommentNotClosed
    | MalformedComment
    | EndInString
    | UnescapedControl
    | BadUnicodeEscape
    | InvalidEscape
    | LeadingZero
    | InvalidNumber
    | NoFractionDigits
    | NoExponentDigits
    | ExpectedLiteral
    | ExpectedKey
    | ExpectedColon
    | ExpectedCommaInObject
    | ExpectedCommaInList
    | ExpectedValue
    | TooDeep
    | TrailingInput

  datatype Parsed<+T> = Ok(v: T, rest: bytes) | Fail(e: ParseError)

  // ---- Gaps ----

  function SkipSpace(s: bytes): (r: bytes)
    ensures |r| <= |s|
  {
    if IsSpace(Peek(s)) then SkipSpace(s[1..]) else s
  }

  /** How many bytes come before the end of the line. */
  function LineLength(s: bytes): (n: nat)
    ensures n <= |s| && (n == |s| || s[n] == 0x0a)
    ensures forall k | 0 <= k < n :: s[k] != 0x0a
  {
    if s == [] || s[0] == 0x0a then 0 else 1 + LineLength(s[1..])
  }

  function SkipBlock(s: bytes): (r: Parsed<bool>)
    ensures r.Ok? ==> r.v && |r.rest| <= |s|
  {
    if |s| < 2 then Fail(CommentNotClosed)
    else if s[0] == 0x2a && s[1] == 0x2f then Ok(true, s[2..])
    else SkipBlock(s[1..])
  }

  /** consume_comment: tells whether there was a comment. */
  function SkipComment(s: bytes): (r: Parsed<bool>)
    ensures r.Ok? ==> |r.rest| <= |s| && (r.v ==> |r.rest| < |s|)
  {
    if Peek(s) != 0x2f then Ok(false, s)
    else if |s| == 1 then Fail(CommentCutShort)
    else if s[1] == 0x2f then Ok(true, s[2 + LineLength(s[2..])..])
    else if s[1] == 0x2a then SkipBlock(s[2..])
    else Fail(MalformedComment)
  }

  function SkipComments(s: bytes): (r: Parsed<()>)
    ensures r.Ok? ==> |r.rest| <= |s|
    decreases |s|
  {
    match SkipComment(s)
    case Fail(e) => Fail(e)
    case Ok(found, r) => if found then SkipComments(SkipSpace(r)) else Ok((), SkipSpace(r))
  }

  /** consume_garbage. */
  function SkipGap(st: Strategy, s: bytes): (r: Parsed<()>)
    ensures r.Ok? ==> |r.rest| <= |s|
  {
    if st.Standard? then Ok((), SkipSpace(s)) else SkipComments(SkipSpace(s))
  }

  /** The input from the next token on. */
  function TokenAt(st: Strategy, s: bytes): (r: Parsed<()>)
    ensures r.Ok? ==> r.rest != [] && |r.rest| <= |s|
  {
    var r := SkipGap(st, s);
    if r.Ok? && r.rest == [] then Fail(UnexpectedEnd) else r
  }

  // ---- Strings ----

  function PrependUnit(u: StringUnit, r: Parsed<seq<StringUnit>>): Parsed<seq<StringUnit>> {
    match r
    case Ok(us, rest) => Ok([u] + us, rest)
    case Fail(e) => Fail(e)
  }

  /** The units up to the closing quote. */
  function LexUnits(s: bytes): (r: Parsed<seq<StringUnit>>)
    ensures r.Ok? ==> |r.rest| < |s|
    decreases |s|
  {
    if s == [] then Fail(EndInString)
    else if s[0] == 0x22 then Ok([], s[1..])
    else if s[0] <= 0x1f then Fail(UnescapedControl)
    else if s[0] != 0x5c then PrependUnit(Raw(s[0]), LexUnits(s[1..]))
    else if |s| == 1 then Fail(EndInString)
    else if s[1] == 0x75 then
      if |s| < 6 || !IsHex4(s[2..6]) then Fail(BadUnicodeEscape)
      else PrependUnit(Code(s[2..6]), LexUnits(s[6..]))
    else if IsEscapeLetter(s[1]) then PrependUnit(Simple(s[1]), LexUnits(s[2..]))
    else Fail(InvalidEscape)
  }

  // ---- Numbers ----

  /** How many digits the input starts with. */
  function DigitRun(s: bytes): (n: nat)
    ensures n <= |s|
  {
    if IsDigit(Peek(s)) then 1 + DigitRun(s[1..]) else 0
  }

  function LexWhole(s: bytes): (r: Parsed<bytes>)
    ensures r.Ok? ==> |r.rest| < |s|
  {
    if Peek(s) == 0x30 then
      if IsDigit(Peek(s[1..])) then Fail(LeadingZero) else Ok([0x30], s[1..])
    else if IsDigit(Peek(s)) then Ok(s[..DigitRun(s)], s[DigitRun(s)..])
    else Fail(InvalidNumber)
  }

  function LexFrac(s: bytes): (r: Parsed<Option<bytes>>)
    ensures r.Ok? ==> |r.rest| <= |s|
  {
    if Peek(s) != 0x2e then Ok(None, s)
    else
      var n := DigitRun(s[1..]);
      if n == 0 then Fail(NoFractionDigits) else Ok(Some(s[1..][..n]), s[1..][n..])
  }

  function SignLength(t: bytes): (k: nat)
    ensures k <= |t|
  {
    if Peek(t) == 0x2b || Peek(t) == 0x2d then 1 else 0
  }

  function LexExpDigits(mark: byte, sign: bytes, u: bytes): (r: Parsed<Option<Exponent>>)
    ensures r.Ok? ==> |r.rest| <= |u|
  {
    var n := DigitRun(u);
    if n == 0 then Fail(NoExponentDigits) else Ok(Some(Exponent(mark, sign, u[..n])), u[n..])
  }

  function LexExp(s: bytes): (r: Parsed<Option<Exponent>>)
    ensures r.Ok? ==> |r.rest| <= |s|
  {
    if Peek(s) != 0x65 && Peek(s) != 0x45 then Ok(None, s)
    else
      var k := SignLength(s[1..]);
      LexExpDigits(s[0], s[1..][..k], s[1..][k..])
  }

  function LexNumber(s: bytes): (r: Parsed<Number>)
    ensures r.Ok? ==> |r.rest| < |s|
  {
    var neg := Peek(s) == 0x2d;
    match LexWhole(if neg then s[1..] else s)
    case Fail(e) => Fail(e)
    case Ok(whole, t) =>
      match LexFrac(t)
      case Fail(e) => Fail(e)
      case Ok(frac, u) =>
        match LexExp(u)
        case Fail(e) => Fail(e)
        case Ok(exp, rest) => Ok(Number(neg, whole, frac, exp), rest)
  }

  // ---- Values ----

  function Literal(s: bytes, word: bytes, c: Cst): (r: Parsed<Cst>)
    requires word != []
    ensures r.Ok? ==> |r.rest| < |s|
  {
    if |s| >= |word| && s[..|word|] == word then Ok(c, s[|word|..]) else Fail(ExpectedLiteral)
  }

  /** parse_json once its first token is known to start at `t`. */
  function Bare(st: Strategy, t: bytes, depth: nat): (r: Parsed<Cst>)
    requires t != []
    ensures r.Ok? ==> |r.rest| < |t|
    decreases |t|, 0
  {
    if t[0] == 0x2d || IsDigit(t[0]) then
      match LexNumber(t)
      case Ok(n, rest) => Ok(CNum(n), rest)
      case Fail(e) => Fail(e)
    else if t[0] == 0x74 then Literal(t, TRUE, CBool(true))
    else if t[0] == 0x66 then Literal(t, FALSE, CBool(false))
    else if t[0] == 0x6e then Literal(t, NULL, CNull)
    else if t[0] == 0x22 then
      match LexUnits(t[1..])
      case Ok(us, rest) => Ok(CStr(us), rest)
      case Fail(e) => Fail(e)
    else if t[0] == 0x7b then ObjectAt(st, t[1..], depth)
    else if t[0] == 0x5b then ListAt(st, t[1..], depth)
    else Fail(ExpectedValue)
  }

  /** The rest of an object after its opening brace. */
  function ObjectAt(st: Strategy, s: bytes, depth: nat): (r: Parsed<Cst>)
    ensures r.Ok? ==> |r.rest| < |s|
    decreases |s|, 3
  {
    match TokenAt(st, s)
    case Fail(e) => Fail(e)
    case Ok(_, u) =>
      if u[0] == 0x7d then Ok(CObjEmpty(Consumed(s, u)), u[1..])
      else
        match Members(st, Consumed(s, u), u, depth)
        case Ok(ms, rest) => Ok(CObj(ms), rest)
        case Fail(e) => Fail(e)
  }

  /** The rest of a list after its opening bracket. */
  function ListAt(st: Strategy, s: bytes, depth: nat): (r: Parsed<Cst>)
    ensures r.Ok? ==> |r.rest| < |s|
    decreases |s|, 3
  {
    match TokenAt(st, s)
    case Fail(e) => Fail(e)
    case Ok(_, u) =>
      if u[0] == 0x5d then Ok(CArrEmpty(Consumed(s, u)), u[1..])
      else
        match Items(st, Consumed(s, u), u, depth)
        case Ok(items, rest) => Ok(CArr(items), rest)
        case Fail(e) => Fail(e)
  }

  /** parse_json. */
  function JsonAt(st: Strategy, s: bytes, depth: nat): (r: Parsed<Cst>)
    ensures r.Ok? ==> |r.rest| < |s|
    decreases |s|, 1
  {
    if depth > MAX_DEPTH then Fail(TooDeep)
    else
      match TokenAt(st, s)
      case Fail(e) => Fail(e)
      case Ok(_, t) => Bare(st, t, depth)
  }

  /** What parse_json returns when it fails: the empty string if it was reading a string, or else null. */
  function FailValue(st: Strategy, s: bytes, depth: nat): Json {
    var t := TokenAt(st, s);
    if depth <= MAX_DEPTH && t.Ok? && t.rest[0] == 0x22 then Str([]) else Nul
  }

  /** One item of a list at depth `depth`, with the gaps around it; `u` is its first token. */
  function ItemAt(st: Strategy, pre: bytes, u: bytes, depth: nat): (r: Parsed<CItem>)
    requires u != []
    ensures r.Ok? ==> r.rest != [] && |r.rest| < |u|
    decreases |u|, 1
  {
    if depth + 1 > MAX_DEPTH then Fail(TooDeep)
    else
      match Bare(st, u, depth + 1)
      case Fail(e) => Fail(e)
      case Ok(c, r) =>
        match TokenAt(st, r)
        case Fail(e) => Fail(e)
        case Ok(_, w) => Ok(CItem(pre, c, Consumed(r, w)), w)
  }

  function Items(st: Strategy, pre: bytes, u: bytes, depth: nat): (r: Parsed<seq<CItem>>)
    requires u != []
    ensures r.Ok? ==> |r.rest| < |u|
    decreases |u|, 2
  {
    match ItemAt(st, pre, u, depth)
    case Fail(e) => Fail(e)
    case Ok(item, w) =>
      if w[0] == 0x5d then Ok([item], w[1..])
      else if w[0] != 0x2c then Fail(ExpectedCommaInList)
      else
        match TokenAt(st, w[1..])
        case Fail(e) => Fail(e)
        case Ok(_, x) =>
          match Items(st, Consumed(w[1..], x), x, depth)
          case Fail(e) => Fail(e)
          case Ok(items, rest) => Ok([item] + items, rest)
  }

  function MemberAt(st: Strategy, pre: bytes, u: bytes, depth: nat): (r: Parsed<CMember>)
    requires u != []
    ensures r.Ok? ==> r.rest != [] && |r.rest| < |u|
    decreases |u|, 1
  {
    if u[0] != 0x22 then Fail(ExpectedKey)
    else
      match LexUnits(u[1..])
      case Fail(e) => Fail(e)
      case Ok(key, k) =>
        match TokenAt(st, k)
        case Fail(e) => Fail(e)
        case Ok(_, w) =>
          if w[0] != 0x3a then Fail(ExpectedColon)
          else if depth + 1 > MAX_DEPTH then Fail(TooDeep)
          else
            match TokenAt(st, w[1..])
            case Fail(e) => Fail(e)
            case Ok(_, x) =>
              match Bare(st, x, depth + 1)
              case Fail(e) => Fail(e)
              case Ok(c, r) =>
                match TokenAt(st, r)
                case Fail(e) => Fail(e)
                case Ok(_, y) =>
                  Ok(CMember(pre, key, Consumed(k, w), Consumed(w[1..], x), c, Consumed(r, y)), y)
  }

  function Members(st: Strategy, pre: bytes, u: bytes, depth: nat): (r: Parsed<seq<CMember>>)
    requires u != []
    ensures r.Ok? ==> |r.rest| < |u|
    decreases |u|, 2
  {
    match MemberAt(st, pre, u, depth)
    case Fail(e) => Fail(e)
    case Ok(m, y) =>
      if y[0] == 0x7d then Ok([m], y[1..])
      else if y[0] != 0x2c then Fail(ExpectedCommaInObject)
      else
        match TokenAt(st, y[1..])
        case Fail(e) => Fail(e)
        case Ok(_, z) =>
          match Members(st, Consumed(y[1..], z), z, depth)
          case Fail(e) => Fail(e)
          case Ok(ms, rest) => Ok([m] + ms, rest)
  }

  /** Json::parse. */
  function ParseDocument(st: Strategy, s: bytes): (r: Parsed<Cst>)
    ensures r.Ok? ==> r.rest == []
  {
    match JsonAt(st, s, 0)
    case Fail(e) => Fail(e)
    case Ok(c, r) =>
      match SkipGap(st, r)
      case Fail(e) => Fail(e)
      case Ok(_, q) => if q == [] then Ok(c, []) else Fail(TrailingInput)
  }
}
