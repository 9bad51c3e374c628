/** Json::parse and Json::parse_multi, and what parse_multi leaves on a failure. */
module JsonMulti {
  import opened Bytes
  import opened JsonValue
  import opened JsonGrammar
  import opened JsonSyntax
  import opened JsonLexical
  import opened JsonCorrect
  import opened JsonDocument
  import opened JsonParser

  /** Json::parse. An initially empty error string stays empty exactly when the input is accepted. */
  method Parse(input: bytes, err0: Option<ParseError>, st: Strategy) returns (result: Json, err: Option<ParseError>)
    ensures ParseDocument(st, input).Ok? ==> result == Value(ParseDocument(st, input).v) && err == err0
    ensures ParseDocument(st, input).Fail? ==> result == Nul && err == Some(ParseDocument(st, input).e)
    ensures err0 == None ==> (err == None <==> ParseDocument(st, input).Ok?)
  {
    hide JsonAt, SkipGap, Value;
    var parser := new JsonParser(input, err0, st);
    assert parser.Left() == input;
    result := parser.ParseJson(0);
    parser.ConsumeGarbage();
    if parser.failed {
      return Nul, parser.err;
    }
    if parser.i != |input| {
      parser.Fail(TrailingInput);
      return Nul, parser.err;
    }
    return result, parser.err;
  }

  /** The values read before `rest`, and the error met there, if any, with the value it leaves. */
  datatype Multi = Multi(accepted: seq<Cst>, extra: seq<Json>, rest: bytes, err: Option<ParseError>)

  /** parse_multi as a function. */
  function MultiAt(st: Strategy, s: bytes): (m: Multi)
    ensures |m.rest| <= |s|
    decreases |s|
  {
    if s == [] then Multi([], [], s, None)
    else
      match JsonAt(st, s, 0)
      case Fail(e) => Multi([], [FailValue(st, s, 0)], s, Some(e))
      case Ok(c, r) =>
        match SkipGap(st, r)
        case Fail(e) => Multi([], [Value(c)], s, Some(e))
        case Ok(_, q) =>
          var m := MultiAt(st, q);
          m.(accepted := [c] + m.accepted)
  }

  function Values(cs: seq<Cst>): seq<Json> {
    seq(|cs|, k requires 0 <= k < |cs| => Value(cs[k]))
  }

  lemma ValuesAppend(cs: seq<Cst>, c: Cst)
    ensures Values(cs + [c]) == Values(cs) + [Value(c)]
  {
  }

  /** What has been accepted so far, put in front of what is read from here on. */
  function Before(done: seq<Cst>, m: Multi): Multi {
    m.(accepted := done + m.accepted)
  }

  lemma MultiStep(st: Strategy, s: bytes, done: seq<Cst>)
    requires s != []
    ensures JsonAt(st, s, 0).Fail? ==>
              Before(done, MultiAt(st, s)) == Multi(done, [FailValue(st, s, 0)], s, Some(JsonAt(st, s, 0).e))
    ensures JsonAt(st, s, 0).Ok? ==>
              var Ok(c, r) := JsonAt(st, s, 0); var g := SkipGap(st, r);
              Before(done, MultiAt(st, s))
              == if g.Fail? then Multi(done, [Value(c)], s, Some(g.e))
                 else Before(done + [c], MultiAt(st, g.rest))
  {
    hide JsonAt, SkipGap, Value;
    assert done + [] == done;
    if JsonAt(st, s, 0).Ok? && SkipGap(st, JsonAt(st, s, 0).rest).Ok? {
      var c := JsonAt(st, s, 0).v;
      var n := MultiAt(st, SkipGap(st, JsonAt(st, s, 0).rest).rest);
      assert done + ([c] + n.accepted) == done + [c] + n.accepted;
    }
  }

  lemma MultiEnd(st: Strategy, done: seq<Cst>)
    ensures Before(done, MultiAt(st, [])) == Multi(done, [], [], None)
  {
    assert done + [] == done;
  }

  /** Json::parse_multi. */
  method ParseMulti(input: bytes, err0: Option<ParseError>, st: Strategy)
    returns (vec: seq<Json>, stop: nat, err: Option<ParseError>)
    ensures var m := MultiAt(st, input);
            && vec == Values(m.accepted) + m.extra
            && stop == |input| - |m.rest|
            && err == if m.err == None then err0 else m.err
  {
    hide JsonAt, SkipGap, Value, MultiAt, Values, Before;
    var parser := new JsonParser(input, err0, st);
    ghost var m := MultiAt(st, input);
    ghost var done: seq<Cst> := [];
    stop, vec := 0, [];
    MultiStart(st, input);
    while parser.i != |input| && !parser.failed
      invariant parser.Valid() && parser.str == input && parser.strategy == st
      invariant fresh(parser) && stop == parser.i && !parser.failed && parser.err == err0
      invariant vec == Values(done)
      invariant m == Before(done, MultiAt(st, input[stop..]))
      decreases |input| - parser.i
    {
      ghost var s := input[stop..];
      MultiStep(st, s, done);
      var value := parser.ParseJson(0);
      vec := vec + [value];
      if parser.failed {
        return vec, stop, parser.err;
      }
      parser.ConsumeGarbage();
      if parser.failed {
        return vec, stop, parser.err;
      }
      stop := parser.i;
      ValuesAppend(done, JsonAt(st, s, 0).v);
      done := done + [JsonAt(st, s, 0).v];
    }
    MultiEnd(st, done);
    assert vec + [] == vec;
    err := parser.err;
  }

  lemma MultiStart(st: Strategy, input: bytes)
    ensures input[0..] == input && Before([], MultiAt(st, input)) == MultiAt(st, input) && Values([]) == []
  {
    var m := MultiAt(st, input);
    assert [] + m.accepted == m.accepted;
  }

  // ---- What was accepted before the stop position ----

  /** The literal after which the input goes on with `rest` cannot be continued by a digit. */
  lemma NumberStops(s: bytes)
    requires LexNumber(s).Ok?
    ensures !IsDigit(Peek(LexNumber(s).rest))
  {
    var t := if Peek(s) == 0x2d then s[1..] else s;
    var u := LexWhole(t).rest;
    var w := LexFrac(u).rest;
    DigitRunSound(t);
    if Peek(u) == 0x2e {
      DigitRunSound(u[1..]);
    }
    if Peek(w) == 0x65 || Peek(w) == 0x45 {
      DigitRunSound(w[1..][SignLength(w[1..])..]);
    }
  }

  /** A token that starts a value and is no digit ends a number in front of it. */
  lemma TokenEndsNumber(st: Strategy, s: bytes)
    requires s != [] && TokenStart(st, s) && JsonAt(st, s, 0).Ok? && !IsDigit(Peek(s))
    ensures NumberEnds(s)
  {
    TokenHere(st, s);
  }

  lemma SameToken(st: Strategy, p: bytes, q: bytes)
    requires p != [] && p <= q && TokenStart(st, q)
    ensures TokenStart(st, p) && Peek(p) == Peek(q)
  {
  }

  /** Where the first value of the input ends, and the gap after it. */
  lemma FirstValue(st: Strategy, s: bytes) returns (pre: bytes, gap: bytes)
    requires JsonAt(st, s, 0).Ok? && SkipGap(st, JsonAt(st, s, 0).rest).Ok?
    ensures var Ok(c, r) := JsonAt(st, s, 0); var q := SkipGap(st, r).rest;
            && IsGap(st, pre) && CstOk(st, c) && Height(c) <= MAX_DEPTH
            && s == pre + (Text(c) + (gap + q)) && r == gap + q
            && (if q == [] then IsEndGap(st, gap) else IsGap(st, gap) && TokenStart(st, q))
            && (c.CNum? ==> !IsDigit(Peek(gap + q)))
  {
    hide Text, CstOk, Height, SkipGap, IsEndGap, IsGap, LexNumber;
    var t;
    pre, t := TokenSound(st, s);
    BareSound(st, t, 0);
    var Ok(c, r) := JsonAt(st, s, 0);
    var q := SkipGap(st, r).rest;
    SkipGapSound(st, r);
    Rejoin(r, q);
    gap := Consumed(r, q);
    if c.CNum? {
      NumberStops(t);
    }
  }

  lemma GapIsEndGap(st: Strategy, w: bytes)
    requires IsGap(st, w)
    ensures IsEndGap(st, w)
  {
  }

  /** A value and the gap behind it are read alike whatever token comes next, if it does not continue a number. */
  lemma FirstValueAlone(st: Strategy, c: Cst, pre: bytes, gap: bytes, q: bytes)
    requires IsGap(st, pre) && CstOk(st, c) && Height(c) <= MAX_DEPTH
    requires if q == [] then IsEndGap(st, gap) else IsGap(st, gap) && TokenStart(st, q)
    requires c.CNum? && gap == [] ==> NumberEnds(q)
    ensures var s := pre + (Text(c) + (gap + q));
            JsonAt(st, s, 0) == Ok(c, gap + q) && SkipGap(st, gap + q) == Ok((), q)
  {
    hide Text, CstOk, Height, SkipGap, Bare, IsEndGap, IsGap;
    if q == [] {
      assert gap + q == gap;
      EndGapEndsNumber(st, gap);
      SkipEndGapComplete(st, gap);
    } else {
      SkipGapComplete(st, gap, q);
      TokenHere(st, q);
      if gap == [] {
        assert gap + q == q;
      } else {
        GapStart(st, gap);
      }
    }
    TextStart(st, c, gap + q);
    TokenAfterGap(st, pre, Text(c) + (gap + q));
    BareComplete(st, c, gap + q, 0);
  }

  /**
   Whether or not parse_multi fails, the values it accepted are exactly those it reads, without an
   error, from the input up to the position it reports.
   */
  lemma {:induction false} PrefixParsesAlone(st: Strategy, s: bytes)
    ensures var m := MultiAt(st, s);
            MultiAt(st, Consumed(s, m.rest)) == Multi(m.accepted, [], [], None)
    decreases |s|
  {
    hide JsonAt, SkipGap, Text, CstOk, Height, IsGap, IsEndGap, TokenStart, NumberEnds, Peek;
    var m := MultiAt(st, s);
    if s != [] && JsonAt(st, s, 0).Ok? && SkipGap(st, JsonAt(st, s, 0).rest).Ok? {
      var Ok(c, r) := JsonAt(st, s, 0);
      var q := SkipGap(st, r).rest;
      var pre, gap := FirstValue(st, s);
      PrefixParsesAlone(st, q);
      var p := Consumed(q, m.rest);
      assert Consumed(s, m.rest) == pre + (Text(c) + (gap + p));
      if p == [] && q != [] {
        GapIsEndGap(st, gap);
      }
      if p == [] {
        NumberEndsAtEnd();
      } else {
        SameToken(st, p, q);
        assert JsonAt(st, p, 0).Ok?;
        if c.CNum? && gap == [] {
          assert gap + q == q;
          TokenEndsNumber(st, p);
        }
      }
      FirstValueAlone(st, c, pre, gap, p);
      assert m.accepted == [c] + m.accepted[1..];
    } else {
      assert Consumed(s, m.rest) == [];
    }
  }

  // ---- Streams of values ----

  /** The texts of the trees, each with its gap behind it. */
  function StreamText(cs: seq<Cst>, gaps: seq<bytes>): bytes
    requires |cs| == |gaps|
  {
    if cs == [] then [] else Text(cs[0]) + (gaps[0] + StreamText(cs[1..], gaps[1..]))
  }

  /** Only the last gap may end in an open line comment. */
  ghost predicate StreamOk(st: Strategy, cs: seq<Cst>, gaps: seq<bytes>) {
    && |cs| == |gaps|
    && (forall k | 0 <= k < |cs| :: CstOk(st, cs[k]) && Height(cs[k]) <= MAX_DEPTH)
    && (forall k | 0 <= k < |cs| :: if k == |cs| - 1 then IsEndGap(st, gaps[k]) else IsGap(st, gaps[k]))
  }

  /** Without a gap between them, the second tree would continue the number literal of the first. */
  predicate RunsOn(c: Cst, d: Cst) {
    c.CNum? && d.CNum? && !d.n.neg
  }

  /** No number stands directly before a number without a sign. */
  predicate Apart(cs: seq<Cst>, gaps: seq<bytes>)
    requires |cs| == |gaps|
  {
    forall k | 0 <= k < |cs| - 1 && gaps[k] == [] :: !RunsOn(cs[k], cs[k + 1])
  }

  /** The first byte of a tree ends a number before it, unless the tree is a number without a sign. */
  lemma FirstByte(st: Strategy, d: Cst, rest: bytes)
    requires CstOk(st, d)
    ensures if d.CNum? && !d.n.neg then IsDigit(Peek(Text(d) + rest)) else NumberEnds(Text(d) + rest)
  {
    if d.CNum? { NumberTextSplit(d.n, rest); }
  }

  /** A digit directly behind a number is not left there. */
  lemma DigitIsTaken(st: Strategy, c: Cst, q: bytes)
    requires c.CNum? && CstOk(st, c) && IsDigit(Peek(q))
    ensures JsonAt(st, Text(c) + q, 0).Ok? ==> JsonAt(st, Text(c) + q, 0).v != c
  {
    hide Text, CstOk, Height, LexNumber, TokenAt;
    var s := Text(c) + q;
    TextStart(st, c, q);
    TokenHere(st, s);
    if JsonAt(st, s, 0).Ok? && JsonAt(st, s, 0).v == c {
      BareSound(st, s, 0);
      var r := JsonAt(st, s, 0).rest;
      assert r == s[|Text(c)|..] == q;
      NumberStops(s);
    }
  }

  lemma ApartTail(cs: seq<Cst>, gaps: seq<bytes>)
    requires |cs| == |gaps| > 1
    ensures Apart(cs, gaps) <==> !(gaps[0] == [] && RunsOn(cs[0], cs[1])) && Apart(cs[1..], gaps[1..])
  {
    hide RunsOn;
    if Apart(cs[1..], gaps[1..]) && !(gaps[0] == [] && RunsOn(cs[0], cs[1])) {
      forall k | 0 <= k < |cs| - 1 && gaps[k] == [] ensures !RunsOn(cs[k], cs[k + 1]) {
        assert k > 0 ==> gaps[1..][k - 1] == [] && cs[1..][k - 1] == cs[k] && cs[1..][k] == cs[k + 1];
      }
    }
    if Apart(cs, gaps) {
      forall k | 0 <= k < |cs| - 2 && gaps[1..][k] == [] ensures !RunsOn(cs[1..][k], cs[1..][k + 1]) {
        assert gaps[k + 1] == [] && cs[1..][k] == cs[k + 1] && cs[1..][k + 1] == cs[k + 2];
      }
    }
  }

  lemma StreamTail(st: Strategy, cs: seq<Cst>, gaps: seq<bytes>)
    requires StreamOk(st, cs, gaps) && cs != []
    ensures StreamOk(st, cs[1..], gaps[1..]) && CstOk(st, cs[0]) && Height(cs[0]) <= MAX_DEPTH
    ensures if |cs| == 1 then IsEndGap(st, gaps[0]) else IsGap(st, gaps[0]) && CstOk(st, cs[1])
  {
    hide CstOk, Height, IsGap, IsEndGap;
    assert |cs| > 1 ==> cs[1..][0] == cs[1];
  }

  /**
   parse_multi reads values that are concatenated or separated by gaps one by one, to the end and
   without an error, exactly when no number is directly followed by a number without a sign.
   */
  lemma {:induction false} StreamIsRead(st: Strategy, cs: seq<Cst>, gaps: seq<bytes>)
    requires |cs| == |gaps| && StreamOk(st, cs, gaps)
    ensures MultiAt(st, StreamText(cs, gaps)) == Multi(cs, [], [], None) <==> Apart(cs, gaps)
  {
    hide Text, CstOk, Height, SkipGap, JsonAt, IsEndGap, IsGap, RunsOn, NumberEnds, StreamOk, Apart;
    if cs == [] {
      NothingApart();
    } else {
      var c, gap := cs[0], gaps[0];
      var q := StreamText(cs[1..], gaps[1..]);
      var s := Text(c) + (gap + q);
      assert StreamText(cs, gaps) == s;
      StreamTail(st, cs, gaps);
      StreamIsRead(st, cs[1..], gaps[1..]);
      GapEmpty(st);
      if |cs| == 1 {
        assert q == [];
        NumberEndsAtEnd();
        FirstValueAlone(st, c, [], gap, q);
        OneApart(cs, gaps);
        assert [] + s == s;
        HeadIsRead(st, c, gap, q, cs[1..]);
      } else {
        var rest := gaps[1] + StreamText(cs[1..][1..], gaps[1..][1..]);
        assert q == Text(cs[1]) + rest;
        TextStart(st, cs[1], rest);
        FirstByte(st, cs[1], rest);
        ApartTail(cs, gaps);
        RunsOnMeans(c, cs[1]);
        if gap == [] && RunsOn(c, cs[1]) {
          RunOnIsNotRead(st, c, cs[1], q, cs);
          assert gap + q == q;
        } else {
          FirstValueAlone(st, c, [], gap, q);
          assert [] + s == s;
          HeadIsRead(st, c, gap, q, cs[1..]);
        }
      }
      assert cs == [c] + cs[1..];
    }
  }

  lemma NothingApart()
    ensures Apart([], [])
  {
  }

  lemma OneApart(cs: seq<Cst>, gaps: seq<bytes>)
    requires |cs| == |gaps| == 1
    ensures Apart(cs, gaps) && Apart(cs[1..], gaps[1..])
  {
  }

  lemma NumberEndsAtEnd()
    ensures NumberEnds([])
  {
  }

  lemma RunsOnMeans(c: Cst, d: Cst)
    ensures RunsOn(c, d) <==> c.CNum? && d.CNum? && !d.n.neg
  {
  }

  lemma HeadIsRead(st: Strategy, c: Cst, gap: bytes, q: bytes, cs: seq<Cst>)
    requires JsonAt(st, Text(c) + (gap + q), 0) == Ok(c, gap + q) && SkipGap(st, gap + q) == Ok((), q)
    ensures MultiAt(st, Text(c) + (gap + q)) == Multi([c] + cs, [], [], None)
       <==> MultiAt(st, q) == Multi(cs, [], [], None)
  {
    hide Text, SkipGap, JsonAt;
    var m := MultiAt(st, q);
    assert MultiAt(st, Text(c) + (gap + q)) == m.(accepted := [c] + m.accepted);
    assert ([c] + m.accepted)[1..] == m.accepted && ([c] + cs)[1..] == cs;
  }

  lemma RunOnIsNotRead(st: Strategy, c: Cst, d: Cst, q: bytes, cs: seq<Cst>)
    requires CstOk(st, c) && RunsOn(c, d) && IsDigit(Peek(q)) && cs != [] && cs[0] == c
    ensures MultiAt(st, Text(c) + q).accepted != cs
  {
    hide Text, CstOk, SkipGap, JsonAt;
    DigitIsTaken(st, c, q);
  }

  function Numeral(digits: bytes): Cst {
    CNum(Number(false, digits, None, None))
  }

  /** Concatenation fails for 1 and 2: without a gap they are the one number 12. */
  lemma OneTwoIsTwelve(st: Strategy)
    ensures StreamText([Numeral([0x31]), Numeral([0x32])], [[], []]) == [0x31, 0x32]
    ensures MultiAt(st, [0x31, 0x32]) == Multi([Numeral([0x31, 0x32])], [], [], None)
  {
    hide MultiAt;
    var one, two, twelve := Numeral([0x31]), Numeral([0x32]), Numeral([0x31, 0x32]);
    assert [one, two][1..] == [two] && [two][1..] == [] && [twelve][1..] == [];
    assert StreamText([two], [[]]) == [0x32];
    assert StreamText([twelve], [[]]) == [0x31, 0x32];
    GapEmpty(st);
    GapIsEndGap(st, []);
    StreamIsRead(st, [twelve], [[]]);
  }
}
