/**
 The JsonParser object: a cursor over the input, a sticky failure flag and the first error. Every
 method is proved to do what the parsing functions say, under both strategies.
 */
module JsonParser {
  import opened Bytes
  import opened JsonValue
  import opened JsonGrammar
  import opened Numerals
  import opened Powers
  import opened Doubles
  import opened JsonSyntax
  import opened JsonLexical
  import opened JsonStrings

  /** atoi: an optional minus and the digits after it. */
  function Atoi(s: bytes): int {
    if Peek(s) == 0x2d then -DigitsValue(s[1..][..DigitRun(s[1..])]) else DigitsValue(s[..DigitRun(s)])
  }

  /** strtod on the longest number literal the text starts with. */
  function Strtod(s: bytes): Double {
    match LexNumber(s)
    case Ok(n, _) => RoundToDouble(NumberValue(n))
    case Fail(_) => Finite(0.0)
  }

  lemma NoFraction(s: bytes)
    requires Peek(s) != 0x2e && Peek(s) != 0x65 && Peek(s) != 0x45
    ensures LexFrac(s) == Ok(None, s) && LexExp(s) == Ok(None, s)
  {
  }

  lemma NoExponent(s: bytes)
    requires Peek(s) != 0x65 && Peek(s) != 0x45
    ensures LexExp(s) == Ok(None, s)
  {
  }

  lemma ExponentSteps(t: bytes, u: bytes, v: bytes)
    requires (Peek(t) == 0x65 || Peek(t) == 0x45) && u == t[1..] && v == u[SignLength(u)..]
    ensures if IsDigit(Peek(v)) then LexExp(t).Ok? && LexExp(t).rest == v[DigitRun(v)..]
            else LexExp(t) == Fail(NoExponentDigits)
  {
  }

  lemma AtoiIsValue(s: bytes)
    requires LexNumber(s).Ok? && LexNumber(s).v.frac.None? && LexNumber(s).v.exp.None?
    ensures Atoi(s) as real == NumberValue(LexNumber(s).v)
    ensures Abs(Atoi(s)) == Abs(DigitsValue(LexNumber(s).v.whole))
  {
    hide Ten, DigitsValue;
    var n := LexNumber(s).v;
    var t := if n.neg then s[1..] else s;
    assert n.whole == t[..DigitRun(t)] by {
      if t[0] == 0x30 {
        assert DigitRun(t[1..]) == 0;
        assert t[..1] == [0x30];
      }
    }
    assert n.whole + [] == n.whole;
    TenZero();
  }

  lemma {:induction false} FewDigits(s: bytes)
    requires AllDigits(s)
    ensures 0 <= DigitsValue(s) < Ten10(|s|)
  {
    if s != [] { FewDigits(s[..|s| - 1]); }
  }

  /** The shortcut for at most nine characters gives the value strtod would give. */
  lemma AtoiIsExact(s: bytes)
    requires LexNumber(s).Ok? && LexNumber(s).v.frac.None? && LexNumber(s).v.exp.None?
    requires |s| - |LexNumber(s).rest| <= 9
    ensures Finite(Atoi(s) as real) == Strtod(s)
  {
    hide RoundMagnitude, IsDouble, Atoi, NumberValue, LexNumber, DigitsValue, Ten10;
    var w := LexNumber(s).v.whole;
    LexNumberSound(s);
    assert |s| == |NumberText(LexNumber(s).v)| + |LexNumber(s).rest|;
    AtoiIsValue(s);
    FewDigits(w);
    NineDigits(|w|);
    SmallIntegers(Abs(Atoi(s)));
    RoundingKeepsDoubles(Atoi(s) as real);
  }

  lemma {:induction false} NineDigits(k: nat)
    requires k <= 9
    ensures Ten10(k) <= 1_000_000_000
    decreases 9 - k
  {
    assert Ten10(3) == 1_000 && Ten10(6) == 1_000_000;
    if k < 9 { NineDigits(k + 1); }
  }

  function ValueOf(r: Parsed<Cst>): Parsed<Json> {
    match r
    case Ok(c, rest) => Ok(Value(c), rest)
    case Fail(e) => Fail(e)
  }

  /** The object read in the end, when `vals` precede the members still to be read. */
  function ObjectFrom(vals: seq<Member>, r: Parsed<seq<CMember>>): Parsed<Json> {
    match r
    case Ok(ms, rest) => Ok(Obj(MapOf(vals + MemberValues(ms))), rest)
    case Fail(e) => Fail(e)
  }

  /** A key, a colon and a value; `u` starts at the token that should be the key. */
  function KeyValueAt(st: Strategy, u: bytes, depth: nat): Parsed<Member>
    requires u != []
  {
    if u[0] != 0x22 then Fail(ExpectedKey)
    else
      match LexUnits(u[1..])
      case Fail(e) => Fail(e)
      case Ok(key, k) =>
        match TokenAt(st, k)
        case Fail(e) => Fail(e)
        case Ok(_, w) =>
          if w[0] != 0x3a then Fail(ExpectedColon)
          else
            match JsonAt(st, w[1..], depth + 1)
            case Fail(e) => Fail(e)
            case Ok(c, r) => Ok(Member(StringValue(key), Value(c)), r)
  }

  /** One turn of the loop over members, and what is left to the next one. */
  function ObjectTurn(st: Strategy, u: bytes, depth: nat, vals: seq<Member>): Parsed<Json>
    requires u != []
  {
    match KeyValueAt(st, u, depth)
    case Fail(e) => Fail(e)
    case Ok(m, r) => ObjectNext(st, r, depth, vals + [m])
  }

  function ObjectNext(st: Strategy, r: bytes, depth: nat, vals: seq<Member>): Parsed<Json> {
    match TokenAt(st, r)
    case Fail(e) => Fail(e)
    case Ok(_, y) =>
      if y[0] == 0x7d then Ok(Obj(MapOf(vals)), y[1..])
      else if y[0] != 0x2c then Fail(ExpectedCommaInObject)
      else
        match TokenAt(st, y[1..])
        case Fail(e) => Fail(e)
        case Ok(_, z) => ObjectFrom(vals, Members(st, Consumed(y[1..], z), z, depth))
  }

  lemma ObjectTurnStep(st: Strategy, u: bytes, depth: nat, vals: seq<Member>)
    requires u != []
    ensures KeyValueAt(st, u, depth).Fail? ==> ObjectTurn(st, u, depth, vals) == Fail(KeyValueAt(st, u, depth).e)
    ensures KeyValueAt(st, u, depth).Ok? ==>
              ObjectTurn(st, u, depth, vals)
              == ObjectNext(st, KeyValueAt(st, u, depth).rest, depth, vals + [KeyValueAt(st, u, depth).v])
  {
  }

  lemma ObjectLoop(st: Strategy, pre: bytes, u: bytes, depth: nat, vals: seq<Member>)
    requires u != []
    ensures ObjectFrom(vals, Members(st, pre, u, depth)) == ObjectTurn(st, u, depth, vals)
  {
    hide LexUnits, TokenAt, Bare, StringValue, Value, MapOf;
    if MemberAt(st, pre, u, depth).Ok? {
      var Ok(m, y) := MemberAt(st, pre, u, depth);
      var mv := [Member(StringValue(m.key), Value(m.value))];
      if Members(st, pre, u, depth).Ok? {
        var ms := Members(st, pre, u, depth).v;
        assert ms == [m] + ms[1..];
        assert vals + MemberValues(ms) == vals + mv + MemberValues(ms[1..]);
        assert y[0] == 0x7d ==> ms[1..] == [] && vals + mv + [] == vals + mv;
      }
    }
  }

  /** After a member: the closing brace, or the next turn behind a comma. */
  lemma ObjectNextStep(st: Strategy, r: bytes, depth: nat, vals: seq<Member>)
    ensures var t := TokenAt(st, r); var n := ObjectNext(st, r, depth, vals);
            && (t.Fail? ==> n == Fail(t.e))
            && (t.Ok? && t.rest[0] == 0x7d ==> n == Ok(Obj(MapOf(vals)), t.rest[1..]))
            && (t.Ok? && t.rest[0] != 0x7d && t.rest[0] != 0x2c ==> n == Fail(ExpectedCommaInObject))
            && (t.Ok? && t.rest[0] == 0x2c ==>
                  var z := TokenAt(st, t.rest[1..]);
                  n == if z.Ok? then ObjectTurn(st, z.rest, depth, vals) else Fail(z.e))
  {
    hide ObjectTurn, ObjectFrom, MapOf, Members, TokenAt;
    var t := TokenAt(st, r);
    if t.Ok? && t.rest[0] == 0x2c {
      var y := t.rest[1..];
      var z := TokenAt(st, y);
      if z.Ok? { ObjectLoop(st, Consumed(y, z.rest), z.rest, depth, vals); }
    }
  }

  function ListFrom(vals: seq<Json>, r: Parsed<seq<CItem>>): Parsed<Json> {
    match r
    case Ok(items, rest) => Ok(Arr(vals + ItemValues(items)), rest)
    case Fail(e) => Fail(e)
  }

  /** One turn of the loop over items. */
  function ListTurn(st: Strategy, u: bytes, depth: nat, vals: seq<Json>): Parsed<Json> {
    match JsonAt(st, u, depth + 1)
    case Fail(e) => Fail(e)
    case Ok(c, r) => ListNext(st, r, depth, vals + [Value(c)])
  }

  function ListNext(st: Strategy, r: bytes, depth: nat, vals: seq<Json>): Parsed<Json> {
    match TokenAt(st, r)
    case Fail(e) => Fail(e)
    case Ok(_, w) =>
      if w[0] == 0x5d then Ok(Arr(vals), w[1..])
      else if w[0] != 0x2c then Fail(ExpectedCommaInList)
      else
        match TokenAt(st, w[1..])
        case Fail(e) => Fail(e)
        case Ok(_, x) => ListFrom(vals, Items(st, Consumed(w[1..], x), x, depth))
  }

  lemma ListLoop(st: Strategy, pre: bytes, u: bytes, depth: nat, vals: seq<Json>)
    requires TokenStart(st, u)
    ensures ListFrom(vals, Items(st, pre, u, depth)) == ListTurn(st, u, depth, vals)
  {
    hide TokenAt, Bare, Value;
    TokenHere(st, u);
    if ItemAt(st, pre, u, depth).Ok? {
      var Ok(item, w) := ItemAt(st, pre, u, depth);
      var iv := [Value(item.value)];
      if Items(st, pre, u, depth).Ok? {
        var items := Items(st, pre, u, depth).v;
        assert items == [item] + items[1..];
        assert vals + ItemValues(items) == vals + iv + ItemValues(items[1..]);
        assert w[0] == 0x5d ==> items[1..] == [] && vals + iv + [] == vals + iv;
      }
    }
  }

  lemma ListTurnStep(st: Strategy, u: bytes, depth: nat, vals: seq<Json>)
    ensures var j := JsonAt(st, u, depth + 1);
            ListTurn(st, u, depth, vals)
            == if j.Ok? then ListNext(st, j.rest, depth, vals + [Value(j.v)]) else Fail(j.e)
  {
  }

  /** After an item: the closing bracket, or the next turn behind a comma. */
  lemma ListNextStep(st: Strategy, r: bytes, depth: nat, vals: seq<Json>)
    ensures var t := TokenAt(st, r); var n := ListNext(st, r, depth, vals);
            && (t.Fail? ==> n == Fail(t.e))
            && (t.Ok? && t.rest[0] == 0x5d ==> n == Ok(Arr(vals), t.rest[1..]))
            && (t.Ok? && t.rest[0] != 0x5d && t.rest[0] != 0x2c ==> n == Fail(ExpectedCommaInList))
            && (t.Ok? && t.rest[0] == 0x2c ==>
                  var z := TokenAt(st, t.rest[1..]);
                  n == if z.Ok? then ListTurn(st, z.rest, depth, vals) else Fail(z.e))
  {
    hide ListTurn, ListFrom, Items;
    var t := TokenAt(st, r);
    if t.Ok? && t.rest[0] == 0x2c {
      var y := t.rest[1..];
      var z := TokenAt(st, y);
      if z.Ok? {
        SkipGapSound(st, y);
        ListLoop(st, Consumed(y, z.rest), z.rest, depth, vals);
      }
    }
  }

  lemma MapOfEmpty()
    ensures MapOf([]) == []
  {
  }

  lemma MapOfAppend(vals: seq<Member>, key: bytes, value: Json)
    ensures MapOf(vals + [Member(key, value)]) == Assign(MapOf(vals), key, value)
  {
    var all := vals + [Member(key, value)];
    assert all[..|all| - 1] == vals;
  }

  /** From the opening bracket to the first turn. */
  lemma ContainerStart(st: Strategy, s: bytes, depth: nat)
    ensures TokenAt(st, s).Fail? ==>
              ObjectAt(st, s, depth) == Fail(TokenAt(st, s).e) && ListAt(st, s, depth) == Fail(TokenAt(st, s).e)
    ensures TokenAt(st, s).Ok? ==>
              var u := TokenAt(st, s).rest; var pre := Consumed(s, u);
              && ValueOf(ObjectAt(st, s, depth))
              == (if u[0] == 0x7d then Ok(Obj([]), u[1..]) else ObjectFrom([], Members(st, pre, u, depth)))
              && ValueOf(ListAt(st, s, depth))
              == (if u[0] == 0x5d then Ok(Arr([]), u[1..]) else ListFrom([], Items(st, pre, u, depth)))
  {
    hide TokenAt, Members, Items, MapOf;
    if TokenAt(st, s).Ok? {
      var u := TokenAt(st, s).rest;
      var pre := Consumed(s, u);
      if Members(st, pre, u, depth).Ok? {
        var vs := MemberValues(Members(st, pre, u, depth).v);
        assert [] + vs == vs;
      }
      if Items(st, pre, u, depth).Ok? {
        var vs := ItemValues(Items(st, pre, u, depth).v);
        assert [] + vs == vs;
      }
    }
  }

  lemma ObjectFirst(st: Strategy, s: bytes, depth: nat)
    ensures TokenAt(st, s).Fail? ==> ObjectAt(st, s, depth) == Fail(TokenAt(st, s).e)
    ensures TokenAt(st, s).Ok? ==>
              var u := TokenAt(st, s).rest;
              ValueOf(ObjectAt(st, s, depth))
              == if u[0] == 0x7d then Ok(Obj([]), u[1..]) else ObjectTurn(st, u, depth, [])
  {
    hide TokenAt, ObjectAt, ListAt, ObjectTurn, ObjectFrom, ListFrom, Members, Items;
    ContainerStart(st, s, depth);
    if TokenAt(st, s).Ok? {
      var u := TokenAt(st, s).rest;
      ObjectLoop(st, Consumed(s, u), u, depth, []);
    }
  }

  lemma ListFirst(st: Strategy, s: bytes, depth: nat)
    ensures TokenAt(st, s).Fail? ==> ListAt(st, s, depth) == Fail(TokenAt(st, s).e)
    ensures TokenAt(st, s).Ok? ==>
              var u := TokenAt(st, s).rest;
              ValueOf(ListAt(st, s, depth))
              == if u[0] == 0x5d then Ok(Arr([]), u[1..]) else ListTurn(st, u, depth, [])
  {
    hide ObjectAt, ListAt, ListTurn, ObjectFrom, ListFrom, Members, Items;
    ContainerStart(st, s, depth);
    if TokenAt(st, s).Ok? {
      var u := TokenAt(st, s).rest;
      SkipGapSound(st, s);
      ListLoop(st, Consumed(s, u), u, depth, []);
    }
  }

  class JsonParser {
    const str: bytes
    const strategy: Strategy
    var i: nat
    /** The error string; None is the empty string. */
    var err: Option<ParseError>
    var failed: bool

    constructor (str: bytes, err: Option<ParseError>, strategy: Strategy)
      ensures this.str == str && this.strategy == strategy
      ensures i == 0 && this.err == err && !failed
    {
      this.str, this.strategy, this.i, this.err, this.failed := str, strategy, 0, err, false;
    }

    ghost predicate Valid()
      reads this
    {
      i <= |str|
    }

    /** The input from the cursor on. */
    ghost function Left(): bytes
      requires Valid()
      reads this
    {
      str[i..]
    }

    /**
     The state after a step that started with `failed0` and `err0` and should have had the result
     `r`: an earlier failure stays as it is, a new one records its error, and success moves the
     cursor and nothing else.
     */
    ghost predicate Did<T>(failed0: bool, err0: Option<ParseError>, r: Parsed<T>)
      reads this
    {
      && Valid()
      && (failed0 ==> failed && err == err0)
      && (!failed0 && r.Fail? ==> failed && err == Some(r.e))
      && (!failed0 && r.Ok? ==> !failed && err == err0 && Left() == r.rest)
    }

    method Fail(e: ParseError)
      modifies this`err, this`failed
      ensures failed && err == if old(failed) then old(err) else Some(e)
    {
      if !failed {
        err := Some(e);
      }
      failed := true;
    }

    method ConsumeWhitespace()
      requires Valid()
      modifies this`i
      ensures Valid() && i >= old(i) && Left() == SkipSpace(old(Left()))
    {
      while At(str, i) == 0x20 || At(str, i) == 0x0d || At(str, i) == 0x0a || At(str, i) == 0x09
        invariant old(i) <= i <= |str|
        invariant SkipSpace(str[i..]) == SkipSpace(old(Left()))
        decreases |str| - i
      {
        assert str[i..][1..] == str[i + 1..];
        i := i + 1;
      }
    }

    method ConsumeComment() returns (found: bool)
      requires Valid()
      modifies this
      ensures Did(old(failed), old(err), SkipComment(old(Left()))) && i >= old(i)
      ensures found == (SkipComment(old(Left())).Ok? && SkipComment(old(Left())).v)
      ensures found ==> i > old(i)
    {
      found := false;
      if At(str, i) == 0x2f {
        i := i + 1;
        if i == |str| {
          Fail(CommentCutShort);
          return false;
        }
        if str[i] == 0x2f {
          i := i + 1;
          ConsumeLine();
          found := true;
        } else if str[i] == 0x2a {
          i := i + 1;
          found := ConsumeBlock();
        } else {
          Fail(MalformedComment);
          return false;
        }
      }
    }

    /** Advances to the end of the line. */
    method ConsumeLine()
      requires Valid()
      modifies this`i
      ensures Valid() && i == old(i) + LineLength(old(Left()))
    {
      while i < |str| && str[i] != 0x0a
        invariant old(i) <= i <= |str|
        invariant i + LineLength(str[i..]) == old(i) + LineLength(old(Left()))
      {
        assert str[i..][1..] == str[i + 1..];
        i := i + 1;
      }
    }

    /** Advances past the closing star-slash. Its first comparison subtracts 2 from the size. */
    method ConsumeBlock() returns (found: bool)
      requires 2 <= i <= |str|
      modifies this
      ensures Did(old(failed), old(err), SkipBlock(old(Left()))) && i >= old(i)
      ensures found == SkipBlock(old(Left())).Ok?
    {
      var last: nat := |str| - 2;
      if i > last {
        Fail(CommentNotClosed);
        return false;
      }
      while !(str[i] == 0x2a && str[i + 1] == 0x2f)
        invariant old(i) <= i <= last
        invariant failed == old(failed) && err == old(err)
        invariant SkipBlock(str[i..]) == SkipBlock(old(Left()))
        decreases |str| - i
      {
        assert str[i..][1..] == str[i + 1..];
        i := i + 1;
        if i > last {
          Fail(CommentNotClosed);
          return false;
        }
      }
      assert str[i..][2..] == str[i + 2..];
      i := i + 2;
      return true;
    }

    method ConsumeGarbage()
      requires Valid()
      modifies this
      ensures Did(old(failed), old(err), SkipGap(strategy, old(Left()))) && i >= old(i)
    {
      ConsumeWhitespace();
      if strategy == Comments {
        ghost var start := Left();
        var found := true;
        while found
          invariant old(i) <= i <= |str|
          invariant old(failed) ==> failed && err == old(err)
          invariant !old(failed) ==> !failed && err == old(err)
          invariant !old(failed) && found ==> SkipComments(Left()) == SkipComments(start)
          invariant !old(failed) && !found ==> SkipComments(start) == Ok((), Left())
          decreases found, |str| - i
        {
          found := ConsumeComment();
          if failed {
            return;
          }
          ConsumeWhitespace();
        }
      }
    }

    method GetNextToken() returns (ch: byte)
      requires Valid()
      modifies this
      ensures Valid() && i >= old(i) && (old(failed) ==> failed && err == old(err))
      ensures failed ==> ch == 0
      ensures !old(failed) ==>
                match TokenAt(strategy, old(Left()))
                case Fail(e) => failed && err == Some(e)
                case Ok(_, t) =>
                  && !failed && err == old(err) && i > old(i) && str[i - 1..] == t && ch == t[0]
                  && TokenStart(strategy, t)
    {
      ghost var s := Left();
      ConsumeGarbage();
      if failed {
        return 0;
      }
      SkipGapSound(strategy, s);
      if i == |str| {
        Fail(UnexpectedEnd);
        return 0;
      }
      ch := str[i];
      i := i + 1;
    }

    /** The four hexadecimal digits at the cursor, which stays where it is. */
    method HexDigits() returns (esc: bytes)
      requires Valid() && !failed
      modifies this`err, this`failed
      ensures var s := old(Left());
              if |s| < 4 || !IsHex4(s[..4]) then failed && err == Some(BadUnicodeEscape)
              else !failed && err == old(err) && esc == s[..4]
    {
      esc := if i + 4 <= |str| then str[i..i + 4] else str[i..];
      if |esc| < 4 {
        Fail(BadUnicodeEscape);
        return;
      }
      assert Left()[..4] == esc;
      for j := 0 to 4
        invariant forall k | 0 <= k < j :: IsHex(esc[k])
        invariant !failed && err == old(err)
      {
        if !(0x61 <= esc[j] <= 0x66) && !(0x41 <= esc[j] <= 0x46) && !(0x30 <= esc[j] <= 0x39) {
          Fail(BadUnicodeEscape);
          return;
        }
      }
    }

    /** The byte that a letter behind a backslash stands for. */
    method EscapeLetter(ch: byte) returns (b: byte)
      requires !failed
      modifies this`err, this`failed
      ensures IsEscapeLetter(ch) ==> !failed && err == old(err) && b == EscapedByte(ch)
      ensures !IsEscapeLetter(ch) ==> failed && err == Some(InvalidEscape)
    {
      b := ch;
      if ch == 0x62 {
        b := 0x08;
      } else if ch == 0x66 {
        b := 0x0c;
      } else if ch == 0x6e {
        b := 0x0a;
      } else if ch == 0x72 {
        b := 0x0d;
      } else if ch == 0x74 {
        b := 0x09;
      } else if ch == 0x22 || ch == 0x5c || ch == 0x2f {
        b := ch;
      } else {
        Fail(InvalidEscape);
      }
    }

    /** One pass with one pending code unit; the result is that of lexing and then joining. */
    method ParseString() returns (out: bytes)
      requires Valid() && !failed
      modifies this
      ensures Did(false, old(err), LexUnits(old(Left()))) && i >= old(i) && (!failed ==> i > old(i))
      ensures out == if failed then [] else StringValue(LexUnits(old(Left())).v)
    {
      hide LexUnits, StringFrom, EncodeUtf8, StringValue, IsHex4, CodeValue, IsEscapeLetter, EscapedByte;
      out := [];
      var last: int := -1;
      StringFromStart(Left());
      while true
        invariant old(i) <= i <= |str| && !failed && err == old(err) && -1 <= last < 0x10000
        invariant StringFrom(out, last, str[i..]) == StringFrom([], -1, old(Left()))
        decreases |str| - i
      {
        ghost var s := str[i..];
        LexUnfold(s);
        if LexUnits(s).Fail? { FailStep(out, last, s); }
        if i == |str| {
          Fail(EndInString);
          return [];
        }
        var ch := str[i];
        i := i + 1;
        if ch == 0x22 {
          EndStep(out, last, s);
          out := out + EncodeUtf8(last);
          return;
        }
        if ch <= 0x1f {
          Fail(UnescapedControl);
          return [];
        }
        if ch != 0x5c {
          ByteStep(out, last, s, Raw(ch), str[i..]);
          out := out + EncodeUtf8(last) + [ch];
          last := -1;
          continue;
        }
        if i == |str| {
          Fail(EndInString);
          return [];
        }
        ch := str[i];
        i := i + 1;
        if ch == 0x75 {
          assert |s| >= 6 ==> str[i..][..4] == s[2..6];
          var esc := HexDigits();
          if failed {
            return [];
          }
          var codepoint := CodeValue(esc);
          assert s[6..] == str[i + 4..];
          CodeStep(out, last, s, esc, str[i + 4..]);
          if 0xd800 <= last <= 0xdbff && 0xdc00 <= codepoint <= 0xdfff {
            out := out + EncodeUtf8((last - 0xd800) * 0x400 + (codepoint - 0xdc00) + 0x10000);
            last := -1;
          } else {
            out := out + EncodeUtf8(last);
            last := codepoint;
          }
          i := i + 4;
          continue;
        }
        if IsEscapeLetter(ch) { ByteStep(out, last, s, Simple(ch), str[i..]); }
        out := out + EncodeUtf8(last);
        last := -1;
        var b := EscapeLetter(ch);
        if failed {
          return [];
        }
        out := out + [b];
      }
    }

    method ConsumeDigits()
      requires Valid()
      modifies this`i
      ensures Valid() && i == old(i) + DigitRun(old(Left()))
    {
      while 0x30 <= At(str, i) <= 0x39
        invariant old(i) <= i <= |str|
        invariant i + DigitRun(str[i..]) == old(i) + DigitRun(old(Left()))
        decreases |str| - i
      {
        assert str[i..][1..] == str[i + 1..];
        i := i + 1;
      }
    }

    /** Integer part. */
    method ConsumeWhole()
      requires Valid() && !failed
      modifies this
      ensures Did(false, old(err), LexWhole(old(Left()))) && i >= old(i)
    {
      ghost var t := Left();
      if At(str, i) == 0x30 {
        i := i + 1;
        assert t[1..] == str[i..];
        if 0x30 <= At(str, i) <= 0x39 {
          Fail(LeadingZero);
        }
      } else if 0x31 <= At(str, i) <= 0x39 {
        i := i + 1;
        assert t[1..] == str[i..];
        ConsumeDigits();
        assert t[DigitRun(t)..] == str[i..];
      } else {
        Fail(InvalidNumber);
      }
    }

    /** Decimal part. */
    method ConsumeFraction()
      requires Valid() && !failed
      modifies this
      ensures Did(false, old(err), LexFrac(old(Left()))) && i >= old(i)
    {
      ghost var t := Left();
      if At(str, i) == 0x2e {
        i := i + 1;
        assert t[1..] == str[i..];
        if !(0x30 <= At(str, i) <= 0x39) {
          Fail(NoFractionDigits);
          return;
        }
        ConsumeDigits();
        assert t[1..][DigitRun(t[1..])..] == str[i..];
      }
    }

    method ConsumeSign()
      requires Valid()
      modifies this`i
      ensures Valid() && i == old(i) + SignLength(old(Left())) && Left() == old(Left())[SignLength(old(Left()))..]
    {
      if At(str, i) == 0x2b || At(str, i) == 0x2d {
        i := i + 1;
      }
    }

    /** Exponent part. */
    method ConsumeExponent()
      requires Valid() && !failed
      modifies this
      ensures Did(false, old(err), LexExp(old(Left()))) && i >= old(i)
    {
      hide LexExp, DigitRun, SignLength;
      ghost var t := str[i..];
      if At(str, i) != 0x65 && At(str, i) != 0x45 {
        NoExponent(t);
      } else {
        i := i + 1;
        ghost var u := str[i..];
        ConsumeSign();
        ghost var v := str[i..];
        ExponentSteps(t, u, v);
        if !(0x30 <= At(str, i) <= 0x39) {
          Fail(NoExponentDigits);
          return;
        }
        ConsumeDigits();
        assert str[i..] == v[DigitRun(v)..];
      }
    }

    method ParseNumber() returns (j: Json)
      requires Valid() && !failed
      modifies this
      ensures Did(false, old(err), LexNumber(old(Left()))) && i >= old(i) && (!failed ==> i > old(i))
      ensures j == if failed then Nul else Num(RoundToDouble(NumberValue(LexNumber(old(Left())).v)))
    {
      hide LexWhole, LexFrac, LexExp, NumberValue, Atoi;
      var start := i;
      ghost var s := str[i..];
      if At(str, i) == 0x2d {
        i := i + 1;
      }
      ghost var t := str[i..];
      assert t == if Peek(s) == 0x2d then s[1..] else s;
      ConsumeWhole();
      if failed {
        return Nul;
      }
      if At(str, i) != 0x2e && At(str, i) != 0x65 && At(str, i) != 0x45 && i - start <= 9 {
        NoFraction(str[i..]);
        AtoiIsExact(s);
        return Num(Finite(Atoi(str[start..]) as real));
      }
      ConsumeFraction();
      if failed {
        return Nul;
      }
      ConsumeExponent();
      if failed {
        return Nul;
      }
      return Num(Strtod(str[start..]));
    }

    /** Reads the word whose first letter has just been read. */
    method Expect(word: bytes, res: Json) returns (j: Json)
      requires Valid() && !failed && i > 0 && word != []
      modifies this
      ensures Did(false, old(err), Literal(str[old(i) - 1..], word, CNull)) && (!failed ==> i >= old(i))
      ensures j == if failed then Nul else res
    {
      i := i - 1;
      var end := if i + |word| <= |str| then i + |word| else |str|;
      assert str[i..][..end - i] == str[i..end];
      if str[i..end] == word {
        assert str[i..][|word|..] == str[i + |word|..];
        i := i + |word|;
        return res;
      } else {
        Fail(ExpectedLiteral);
        return Nul;
      }
    }

    /** parse_json. */
    method ParseJson(depth: nat) returns (j: Json)
      requires Valid()
      modifies this
      ensures Did(old(failed), old(err), JsonAt(strategy, old(Left()), depth))
      ensures !failed ==> j == Value(JsonAt(strategy, old(Left()), depth).v)
      ensures failed ==> j == if old(failed) then Nul else FailValue(strategy, old(Left()), depth)
      ensures !failed ==> i > old(i)
      decreases if failed then 0 else 1, |str| - i, 1
    {
      hide LexNumber, LexUnits, TokenAt, ObjectAt, ListAt, NumberValue, StringValue;
      if depth > 200 {
        Fail(TooDeep);
        return Nul;
      }
      var ch := GetNextToken();
      if failed {
        return Nul;
      }
      ghost var t := str[i - 1..];
      assert t[1..] == str[i..];
      if ch == 0x2d || 0x30 <= ch <= 0x39 {
        i := i - 1;
        j := ParseNumber();
      } else if ch == 0x74 {
        j := Expect(Ascii("true"), Bool(true));
      } else if ch == 0x66 {
        j := Expect(Ascii("false"), Bool(false));
      } else if ch == 0x6e {
        j := Expect(Ascii("null"), Nul);
      } else if ch == 0x22 {
        var s := ParseString();
        j := Str(s);
      } else if ch == 0x7b {
        j := ParseObject(depth);
      } else if ch == 0x5b {
        j := ParseList(depth);
      } else {
        Fail(ExpectedValue);
        j := Nul;
      }
    }

    /** The part of the loop over members that reads one key and its value. */
    method ParseKeyValue(ch: byte, depth: nat) returns (key: bytes, value: Json)
      requires Valid() && i > 0 && depth <= MAX_DEPTH
      requires if failed then ch == 0 else ch == str[i - 1]
      modifies this
      ensures Valid() && (old(failed) ==> failed && err == old(err))
      ensures !old(failed) ==> Did(false, old(err), KeyValueAt(strategy, str[old(i) - 1..], depth))
      ensures !failed ==> i > old(i) && Member(key, value) == KeyValueAt(strategy, str[old(i) - 1..], depth).v
      decreases if failed then 0 else 1, |str| - i, 2
    {
      hide LexUnits, TokenAt, JsonAt, StringValue, Value, TokenStart;
      key, value := [], Nul;
      if ch != 0x22 {
        Fail(ExpectedKey);
        return;
      }
      assert str[i - 1..][1..] == str[i..];
      key := ParseString();
      if failed {
        return;
      }
      var colon := GetNextToken();
      if colon != 0x3a {
        Fail(ExpectedColon);
        return;
      }
      assert str[i - 1..][1..] == str[i..];
      value := ParseJson(depth + 1);
    }

    /** The branch of parse_json after an opening brace. */
    method ParseObject(depth: nat) returns (j: Json)
      requires Valid() && i > 0 && !failed && depth <= MAX_DEPTH
      modifies this
      ensures Did(false, old(err), ObjectAt(strategy, old(Left()), depth)) && (!failed ==> i > old(i))
      ensures j == if failed then Nul else Value(ObjectAt(strategy, old(Left()), depth).v)
      decreases if failed then 0 else 1, |str| - i, 2
    {
      hide TokenAt, ObjectAt, KeyValueAt, ObjectTurn, ObjectNext, MapOf, Assign, Value, TokenStart;
      ghost var s := Left();
      ghost var whole := ValueOf(ObjectAt(strategy, s, depth));
      ObjectFirst(strategy, s, depth);
      var data: seq<Member> := [];
      var ch := GetNextToken();
      if ch == 0x7d {
        assert str[i - 1..][1..] == str[i..];
        return Obj(data);
      }
      ghost var vals: seq<Member> := [];
      MapOfEmpty();
      while true
        invariant 0 < i <= |str|
        invariant failed ==> ch == 0 && err.Some? && whole == Parsed<Json>.Fail(err.value)
        invariant !failed ==>
                    && i > old(i) && err == old(err) && ch == str[i - 1] && data == MapOf(vals)
                    && whole == ObjectTurn(strategy, str[i - 1..], depth, vals)
        decreases |str| - i
      {
        if !failed {
          ObjectTurnStep(strategy, str[i - 1..], depth, vals);
        }
        var key, value := ParseKeyValue(ch, depth);
        data := Assign(data, key, value);
        if failed {
          return Nul;
        }
        MapOfAppend(vals, key, value);
        vals := vals + [Member(key, value)];
        ObjectNextStep(strategy, Left(), depth, vals);
        ch := GetNextToken();
        assert !failed ==> str[i - 1..][1..] == str[i..];
        if ch == 0x7d {
          break;
        }
        if ch != 0x2c {
          Fail(ExpectedCommaInObject);
          return Nul;
        }
        ch := GetNextToken();
      }
      return Obj(data);
    }

    /** The branch of parse_json after an opening bracket. */
    method ParseList(depth: nat) returns (j: Json)
      requires Valid() && i > 0 && !failed && depth <= MAX_DEPTH
      modifies this
      ensures Did(false, old(err), ListAt(strategy, old(Left()), depth)) && (!failed ==> i > old(i))
      ensures j == if failed then Nul else Value(ListAt(strategy, old(Left()), depth).v)
      decreases if failed then 0 else 1, |str| - i, 2
    {
      hide TokenAt, ListAt, JsonAt, ListTurn, ListNext, Value, TokenStart;
      ghost var s := Left();
      ghost var whole := ValueOf(ListAt(strategy, s, depth));
      ListFirst(strategy, s, depth);
      var data: seq<Json> := [];
      var ch := GetNextToken();
      if ch == 0x5d {
        assert str[i - 1..][1..] == str[i..];
        return Arr(data);
      }
      while true
        invariant 0 < i <= |str|
        invariant failed ==> err.Some? && whole == Parsed<Json>.Fail(err.value)
        invariant !failed ==>
                    && i > old(i) + (if data == [] then 0 else 1) && err == old(err)
                    && whole == ListTurn(strategy, str[i - 1..], depth, data)
        decreases |str| - i
      {
        ListTurnStep(strategy, str[i - 1..], depth, data);
        i := i - 1;
        var value := ParseJson(depth + 1);
        data := data + [value];
        if failed {
          return Nul;
        }
        ListNextStep(strategy, Left(), depth, data);
        ch := GetNextToken();
        assert !failed ==> str[i - 1..][1..] == str[i..];
        if ch == 0x5d {
          break;
        }
        if ch != 0x2c {
          Fail(ExpectedCommaInList);
          return Nul;
        }
        ch := GetNextToken();
      }
      return Arr(data);
    }
  }

  /** One step of the lexer, by the bytes at the cursor. */
  lemma LexUnfold(s: bytes)
    ensures s == [] ==> LexUnits(s) == Fail(EndInString)
    ensures s != [] && s[0] == 0x22 ==> LexUnits(s) == Ok([], s[1..])
    ensures s != [] && s[0] <= 0x1f ==> LexUnits(s) == Fail(UnescapedControl)
    ensures s != [] && s[0] > 0x1f && s[0] != 0x22 && s[0] != 0x5c ==>
              LexUnits(s) == PrependUnit(Raw(s[0]), LexUnits(s[1..]))
    ensures |s| == 1 && s[0] == 0x5c ==> LexUnits(s) == Fail(EndInString)
    ensures |s| > 1 && s[0] == 0x5c && s[1] == 0x75 && (|s| < 6 || !IsHex4(s[2..6])) ==>
              LexUnits(s) == Fail(BadUnicodeEscape)
    ensures |s| >= 6 && s[0] == 0x5c && s[1] == 0x75 && IsHex4(s[2..6]) ==>
              LexUnits(s) == PrependUnit(Code(s[2..6]), LexUnits(s[6..]))
    ensures |s| > 1 && s[0] == 0x5c && s[1] != 0x75 ==>
              LexUnits(s) == if IsEscapeLetter(s[1]) then PrependUnit(Simple(s[1]), LexUnits(s[2..]))
                             else Fail(InvalidEscape)
  {
  }
}
