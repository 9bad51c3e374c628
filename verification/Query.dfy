/** Query strings: how keyword arguments are printed, and what a server reads back. */
module Query {
  import opened Bytes
  import opened Kwargs
  import opened Url
  import opened Numerals

  // ---- Arguments ----

  /** A keyword is a type of its own (`id`); its parameter name is made of unreserved characters. */
  datatype Keyword = Keyword(id: nat, name: Name)

  type Name = n: bytes | AllUnreserved(n)

  predicate AllUnreserved(s: bytes) {
    forall k | 0 <= k < |s| :: IsUnreserved(s[k])
  }

  datatype Consistency = Default | Consistent | Stale

  datatype Value =
    | Text(s: bytes)
    | Integer(i: int)
    | Flag(b: bool)
    | ConsistencyMode(c: Consistency)
    | BlockFor(ms: int, index: nat)

  type Arg = KwArg<Keyword, Value>

  // ---- What a query means ----

  /** A decoded fragment of a query: `name=value`, or a name alone. */
  datatype Pair = Pair(name: bytes, value: Option<bytes>)

  /** The pairs an argument stands for. */
  function Pairs(a: Arg): seq<Pair> {
    match a.value
    case Text(s) => if s == [] then [] else [Pair(a.key.name, Some(s))]
    case Integer(i) => [Pair(a.key.name, Some(Decimal(i)))]
    case Flag(b) => [Pair(a.key.name, Some(Ascii(if b then "1" else "0")))]
    case ConsistencyMode(c) =>
      (match c
       case Stale => [Pair(Ascii("stale"), None)]
       case Consistent => [Pair(Ascii("consistent"), None)]
       case Default => [])
    case BlockFor(ms, index) =>
      [Pair(Ascii("wait"), Some(Decimal(ms) + Ascii("ms"))), Pair(Ascii("index"), Some(Decimal(index)))]
  }

  function Meaning(args: seq<Arg>): seq<Pair> {
    if args == [] then [] else Pairs(args[0]) + Meaning(args[1..])
  }

  /** The text of a pair, with its value percent-encoded. */
  function PairText(p: Pair): bytes {
    match p.value
    case Some(v) => p.name + ([0x3d] + UrlText(v))
    case None => p.name
  }

  /** The texts of the pairs with an ampersand between them. */
  function PairsText(ps: seq<Pair>): bytes {
    if ps == [] then []
    else if |ps| == 1 then PairText(ps[0])
    else PairText(ps[0]) + ([0x26] + PairsText(ps[1..]))
  }

  // ---- How a server reads a query ----

  /** The pieces of a string between the separators. */
  function SplitOn(s: bytes, sep: byte): (r: seq<bytes>)
    ensures r != []
  {
    if s == [] then [[]]
    else
      var r := SplitOn(s[1..], sep);
      if s[0] == sep then [[]] + r else [[s[0]] + r[0]] + r[1..]
  }

  /** Split at the first equals sign, and percent-decode. An empty fragment is refused. */
  function DecodePair(f: bytes): Option<Pair> {
    if f == [] then None
    else
      var i := FindFirst(f, 0x3d);
      match PercentDecode(f[..i])
      case None => None
      case Some(name) =>
        if i == |f| then Some(Pair(name, None))
        else
          match PercentDecode(f[i + 1..])
          case None => None
          case Some(v) => Some(Pair(name, Some(v)))
  }

  function DecodePairs(fs: seq<bytes>): Option<seq<Pair>> {
    if fs == [] then Some([])
    else
      match DecodePair(fs[0])
      case None => None
      case Some(p) =>
        match DecodePairs(fs[1..])
        case None => None
        case Some(ps) => Some([p] + ps)
  }

  function DecodeQuery(q: bytes): Option<seq<Pair>> {
    if q == [] then Some([]) else DecodePairs(SplitOn(q, 0x26))
  }

  // ---- Query strings are unambiguous ----

  predicate PairOk(p: Pair) {
    AllUnreserved(p.name) && (p.value.None? ==> p.name != [])
  }

  predicate PairsOk(ps: seq<Pair>) {
    forall k | 0 <= k < |ps| :: PairOk(ps[k])
  }

  lemma {:induction false} SplitWhole(f: bytes, sep: byte)
    requires sep !in f
    ensures SplitOn(f, sep) == [f]
  {
    if f != [] {
      assert f == [f[0]] + f[1..];
      SplitWhole(f[1..], sep);
    }
  }

  lemma {:induction false} SplitFirst(f: bytes, sep: byte, t: bytes)
    requires sep !in f
    ensures SplitOn(f + ([sep] + t), sep) == [f] + SplitOn(t, sep)
  {
    var s := f + ([sep] + t);
    if f == [] {
      assert s[1..] == t;
    } else {
      assert f == [f[0]] + f[1..];
      assert s[1..] == f[1..] + ([sep] + t);
      SplitFirst(f[1..], sep, t);
    }
  }

  lemma FirstEquals(name: bytes, t: bytes)
    requires 0x3d !in name
    ensures FindFirst(name + ([0x3d] + t), 0x3d) == |name|
  {
    var s := name + ([0x3d] + t);
    assert s[|name|] == 0x3d;
    assert forall k | 0 <= k < |name| :: s[k] == name[k] && name[k] != 0x3d;
  }

  lemma ValuePair(name: bytes, v: bytes)
    requires AllUnreserved(name)
    ensures var f := name + ([0x3d] + UrlText(v));
            f != [] && 0x26 !in f && DecodePair(f) == Some(Pair(name, Some(v)))
  {
    hide UrlText, PercentDecode, FindFirst;
    var f := name + ([0x3d] + UrlText(v));
    UrlTextIsSafe(v);
    FirstEquals(name, UrlText(v));
    PlainIsDecoded(name);
    UrlRoundTrip(v);
    assert f[..|name|] == name && f[|name| + 1..] == UrlText(v);
  }

  lemma NamePair(name: bytes)
    requires AllUnreserved(name) && name != []
    ensures 0x26 !in name && DecodePair(name) == Some(Pair(name, None))
  {
    hide PercentDecode;
    PlainIsDecoded(name);
    assert name[..|name|] == name;
  }

  lemma PairRoundTrip(p: Pair)
    requires PairOk(p)
    ensures PairText(p) != [] && 0x26 !in PairText(p) && DecodePair(PairText(p)) == Some(p)
  {
    hide DecodePair;
    match p.value
    case None => NamePair(p.name);
    case Some(v) => ValuePair(p.name, v);
  }

  /** Splitting on ampersands and the first equals sign and percent-decoding recovers the pairs. */
  lemma {:induction false} PairsRoundTrip(ps: seq<Pair>)
    requires PairsOk(ps)
    ensures DecodeQuery(PairsText(ps)) == Some(ps) && (ps != [] ==> PairsText(ps) != [])
  {
    hide PairText, DecodePair;
    if ps != [] {
      var f := PairText(ps[0]);
      PairRoundTrip(ps[0]);
      assert ps == [ps[0]] + ps[1..];
      if |ps| == 1 {
        SplitWhole(f, 0x26);
        assert DecodePairs([f][1..]) == Some([]) && DecodePairs([f]) == Some([ps[0]] + []);
        assert ps[1..] == [];
      } else {
        var t := PairsText(ps[1..]);
        PairsRoundTrip(ps[1..]);
        SplitFirst(f, 0x26, t);
        assert ([f] + SplitOn(t, 0x26))[1..] == SplitOn(t, 0x26);
      }
    }
  }

  lemma {:induction false} DigitsUnreserved(n: nat)
    ensures AllUnreserved(Digits(n))
  {
    if n >= 10 { DigitsUnreserved(n / 10); }
  }

  lemma DecimalUnreserved(i: int)
    ensures AllUnreserved(Decimal(i))
  {
    DigitsUnreserved(if i < 0 then -i else i);
  }

  lemma {:induction false} UnreservedIsPlain(s: bytes)
    requires AllUnreserved(s)
    ensures UrlText(s) == s
  {
    if s != [] {
      SafeIsUnreserved(s[0]);
      UnreservedIsPlain(s[1..]);
      assert s == [s[0]] + s[1..];
    }
  }

  lemma ArgPairsOk(a: Arg)
    ensures PairsOk(Pairs(a))
  {
    hide Decimal;
  }

  lemma {:induction false} MeaningOk(args: seq<Arg>)
    ensures PairsOk(Meaning(args))
  {
    if args != [] {
      ArgPairsOk(args[0]);
      MeaningOk(args[1..]);
    }
  }

  // ---- Printing ----

  /** The std::ostringstream that a query is printed to. */
  class OStream {
    var text: bytes

    constructor ()
      ensures text == []
    {
      text := [];
    }

    method Put(s: bytes)
      modifies this
      ensures text == old(text) + s
    {
      text := text + s;
    }

    method Tellp() returns (pos: nat)
      ensures pos == |text|
    {
      pos := |text|;
    }
  }

  /** The texts of the pairs with an ampersand after each. */
  function Terminated(ps: seq<Pair>): bytes {
    if ps == [] then [] else PairText(ps[0]) + ([0x26] + Terminated(ps[1..]))
  }

  lemma {:induction false} TerminatedText(ps: seq<Pair>)
    ensures ps != [] ==> Terminated(ps) == PairsText(ps) + [0x26]
  {
    hide PairText;
    if |ps| > 1 {
      var f, t := PairText(ps[0]), PairsText(ps[1..]);
      TerminatedText(ps[1..]);
      Assoc([0x26], t, [0x26]);
      Assoc(f, [0x26] + t, [0x26]);
    }
  }

  lemma {:induction false} TerminatedAppend(ps: seq<Pair>, qs: seq<Pair>)
    ensures Terminated(ps + qs) == Terminated(ps) + Terminated(qs)
  {
    hide PairText;
    if ps == [] {
      assert ps + qs == qs;
      assert [] + Terminated(qs) == Terminated(qs);
    } else {
      var f, t := PairText(ps[0]), Terminated(ps[1..]);
      assert (ps + qs)[1..] == ps[1..] + qs;
      TerminatedAppend(ps[1..], qs);
      Assoc([0x26], t, Terminated(qs));
      Assoc(f, [0x26] + t, Terminated(qs));
    }
  }

  lemma {:induction false} MeaningAppend(args: seq<Arg>, more: seq<Arg>)
    ensures Meaning(args + more) == Meaning(args) + Meaning(more)
  {
    hide Pairs;
    if args == [] {
      assert args + more == more;
    } else {
      assert (args + more)[1..] == args[1..] + more;
      MeaningAppend(args[1..], more);
      var p, m := Pairs(args[0]), Meaning(args[1..]);
      assert p + (m + Meaning(more)) == p + m + Meaning(more);
    }
  }

  /** The overloads of printParameter, chosen by the type of the value. */
  method PrintParameter(os: OStream, v: Value, k: Keyword)
    modifies os
    ensures os.text == old(os.text) + PairsText(Pairs(KwArg(k, v)))
  {
    hide Pairs, PairsText, Decimal, UrlText, Ascii;
    PrintedText(KwArg(k, v));
    match v
    case Text(s) =>
      if s != [] {
        var u := EncodeUrl(s);
        os.Put(k.name);
        os.Put([0x3d]);
        os.Put(u);
        Chain(old(os.text), k.name, [0x3d], u);
      }
    case Integer(i) =>
      os.Put(k.name);
      os.Put([0x3d]);
      os.Put(Decimal(i));
      Chain(old(os.text), k.name, [0x3d], Decimal(i));
    case Flag(b) =>
      os.Put(k.name);
      os.Put([0x3d]);
      os.Put(Ascii(if b then "1" else "0"));
      Chain(old(os.text), k.name, [0x3d], Ascii(if b then "1" else "0"));
    case ConsistencyMode(c) =>
      if c == Stale {
        os.Put(Ascii("stale"));
      } else if c == Consistent {
        os.Put(Ascii("consistent"));
      }
    case BlockFor(ms, index) =>
      os.Put(Ascii("wait="));
      os.Put(Decimal(ms));
      os.Put(Ascii("ms&index="));
      os.Put(Decimal(index));
      Chain(old(os.text), Ascii("wait="), Decimal(ms), Ascii("ms&index="));
      Assoc(old(os.text), Ascii("wait=") + Decimal(ms) + Ascii("ms&index="), Decimal(index));
  }

  lemma Chain(a: bytes, b: bytes, c: bytes, d: bytes)
    ensures a + b + c + d == a + (b + c + d)
  {
  }

  /** The text of the pairs of one argument: what is printed is unreserved where it is not encoded. */
  lemma PrintedText(a: Arg)
    ensures PairsText(Pairs(a))
         == match a.value
            case Text(s) => if s == [] then [] else a.key.name + [0x3d] + UrlText(s)
            case Integer(i) => a.key.name + [0x3d] + Decimal(i)
            case Flag(b) => a.key.name + [0x3d] + Ascii(if b then "1" else "0")
            case ConsistencyMode(c) =>
              if c == Stale then Ascii("stale") else if c == Consistent then Ascii("consistent") else []
            case BlockFor(ms, index) => Ascii("wait=") + Decimal(ms) + Ascii("ms&index=") + Decimal(index)
  {
    hide Decimal;
    match a.value
    case Text(s) =>
    case Integer(i) =>
      DecimalUnreserved(i);
      UnreservedIsPlain(Decimal(i));
    case Flag(b) =>
      UnreservedIsPlain(Ascii(if b then "1" else "0"));
    case ConsistencyMode(c) =>
    case BlockFor(ms, index) =>
      BlockForText(ms, index);
  }

  lemma BlockForText(ms: int, index: nat)
    ensures PairsText([Pair(Ascii("wait"), Some(Decimal(ms) + Ascii("ms"))),
                       Pair(Ascii("index"), Some(Decimal(index)))])
         == Ascii("wait=") + Decimal(ms) + Ascii("ms&index=") + Decimal(index)
  {
    hide Decimal, UrlText;
    var m, i := Decimal(ms), Decimal(index);
    DecimalUnreserved(ms);
    DecimalUnreserved(index);
    UnreservedIsPlain(m + Ascii("ms"));
    UnreservedIsPlain(i);
    var ps := [Pair(Ascii("wait"), Some(m + Ascii("ms"))), Pair(Ascii("index"), Some(i))];
    assert ps[1..] == [Pair(Ascii("index"), Some(i))];
    BlockForJoin(m, i);
  }

  lemma BlockForJoin(m: bytes, i: bytes)
    ensures Ascii("wait") + ([0x3d] + (m + Ascii("ms"))) + ([0x26] + (Ascii("index") + ([0x3d] + i)))
         == Ascii("wait=") + m + Ascii("ms&index=") + i
  {
    assert Ascii("wait=") == Ascii("wait") + [0x3d];
    assert Ascii("ms&index=") == Ascii("ms") + ([0x26] + (Ascii("index") + [0x3d]));
  }

  class ParameterPrinter {
    const os: OStream

    constructor (os: OStream)
      ensures this.os == os
    {
      this.os := os;
    }

    /** operator(): print an argument, and an ampersand if anything was printed. */
    method Print(a: Arg)
      modifies os
      ensures os.text == old(os.text) + Terminated(Pairs(a))
    {
      hide Pairs, PairText;
      TerminatedText(Pairs(a));
      ArgPairsOk(a);
      PairsRoundTrip(Pairs(a));
      var pos := os.Tellp();
      PrintParameter(os, a.value, a.key);
      assert KwArg(a.key, a.value) == a;
      var now := os.Tellp();
      if now != pos {
        os.Put([0x26]);
        Assoc(old(os.text), PairsText(Pairs(a)), [0x26]);
      }
    }
  }

  /** makeQuery: the last argument of each keyword, without a trailing ampersand. */
  method MakeQuery(args: seq<Arg>) returns (r: bytes)
    ensures r == PairsText(Meaning(KeepLast(args)))
  {
    hide Pairs, PairText;
    var os := new OStream();
    var printer := new ParameterPrinter(os);
    var p := UniqueArgs(args);
    UniqueArgsKeepLast(args);
    for i := 0 to |p|
      invariant os.text == Terminated(Meaning(p[..i]))
    {
      printer.Print(p[i]);
      assert p[..i + 1] == p[..i] + [p[i]];
      MeaningAppend(p[..i], [p[i]]);
      assert Pairs(p[i]) + [] == Pairs(p[i]);
      TerminatedAppend(Meaning(p[..i]), Pairs(p[i]));
    }
    assert p[..|p|] == p;
    TerminatedText(Meaning(p));
    r := os.text;
    if r != [] && r[|r| - 1] == 0x26 {
      r := r[..|r| - 1];
    }
  }

  /**
   A query string is read back as the last argument of each keyword, in the order of their last
   occurrences and without the empty strings; no fragment of it is empty.
   */
  lemma QueryIsUnambiguous(args: seq<Arg>)
    ensures DecodeQuery(PairsText(Meaning(UniqueArgs(args)))) == Some(Meaning(KeepLast(args)))
  {
    UniqueArgsKeepLast(args);
    MeaningOk(KeepLast(args));
    PairsRoundTrip(Meaning(KeepLast(args)));
  }

  /** A later empty string removes its keyword from the query, as if it had never been given. */
  lemma EmptyShadows(args: seq<Arg>, key: Keyword)
    ensures Meaning(KeepLast(args + [KwArg(key, Text([]))])) == Meaning(KeepLast(Without(args, key)))
  {
    var last := KwArg(key, Text([]));
    LastArgShadows(args, last);
    MeaningAppend(KeepLast(Without(args, key)), [last]);
  }

  predicate SameType(v: Value, w: Value) {
    match v
    case Text(_) => w.Text?
    case Integer(_) => w.Integer?
    case Flag(_) => w.Flag?
    case ConsistencyMode(_) => w.ConsistencyMode?
    case BlockFor(_, _) => w.BlockFor?
  }

  /** The pairs of an argument determine its value, given the keyword and so the type of the value. */
  lemma PairsDetermineValue(key: Keyword, v: Value, w: Value)
    requires SameType(v, w)
    ensures Pairs(KwArg(key, v)) == Pairs(KwArg(key, w)) <==> v == w
  {
    hide Decimal, AllUnreserved;
    if Pairs(KwArg(key, v)) == Pairs(KwArg(key, w)) {
      assert |Pairs(KwArg(key, v))| > 0 ==> Pairs(KwArg(key, v))[0] == Pairs(KwArg(key, w))[0];
      match v
      case Integer(i) => DecimalInjective(i, w.i);
      case BlockFor(ms, index) =>
        var d, e := Decimal(ms), Decimal(w.ms);
        assert (d + Ascii("ms"))[..|d|] == d && (e + Ascii("ms"))[..|e|] == e;
        assert |d + Ascii("ms")| == |e + Ascii("ms")|;
        DecimalInjective(ms, w.ms);
        assert Pairs(KwArg(key, v))[1] == Pairs(KwArg(key, w))[1];
        DecimalInjective(index, w.index);
      case _ =>
    }
  }

  // ---- When a query determines the arguments ----

  /** The arguments that print something. */
  function Visible(args: seq<Arg>): seq<Arg> {
    if args == [] then []
    else if Pairs(args[0]) == [] then Visible(args[1..])
    else [args[0]] + Visible(args[1..])
  }

  /** If the two print alike at the start, they have one keyword, and so values of one type. */
  predicate NameTells(a: Arg, b: Arg) {
    Pairs(a) != [] && Pairs(b) != [] && Pairs(a)[0].name == Pairs(b)[0].name ==>
      a.key == b.key && SameType(a.value, b.value)
  }

  /** Parameter names identify their keywords, and are none of the names that modes and waits print first. */
  predicate NamesTell(args: seq<Arg>, others: seq<Arg>) {
    forall a, b | a in args && b in others :: NameTells(a, b)
  }

  lemma {:induction false} VisibleMeaning(args: seq<Arg>)
    ensures Meaning(Visible(args)) == Meaning(args)
    ensures forall a | a in Visible(args) :: a in args && Pairs(a) != []
  {
    hide Pairs;
    if args != [] {
      VisibleMeaning(args[1..]);
      assert [] + Meaning(args[1..]) == Meaning(args[1..]);
      assert Pairs(args[0]) != [] ==> Visible(args)[1..] == Visible(args[1..]);
    }
  }

  lemma {:induction false} KeptAreGiven(args: seq<Arg>)
    ensures forall a | a in KeepLast(args) :: a in args
  {
    if args != [] { KeptAreGiven(args[1..]); }
  }

  lemma PairCount(a: Arg, b: Arg)
    requires a.key == b.key && SameType(a.value, b.value) && Pairs(a) != [] && Pairs(b) != []
    ensures |Pairs(a)| == |Pairs(b)|
  {
  }

  lemma Cancel(p: seq<Pair>, x: seq<Pair>, q: seq<Pair>, y: seq<Pair>)
    requires p + x == q + y && |p| == |q|
    ensures p == q && x == y
  {
    assert p == (p + x)[..|p|] && q == (q + y)[..|q|];
    assert x == (p + x)[|p|..] && y == (q + y)[|q|..];
  }

  /** The first of two argument lists that mean the same are the same argument. */
  lemma SameHead(a: Arg, x: seq<Pair>, b: Arg, y: seq<Pair>)
    requires Pairs(a) + x == Pairs(b) + y && Pairs(a) != [] && Pairs(b) != [] && NameTells(a, b)
    ensures a == b && x == y
  {
    hide Pairs, SameType;
    assert Pairs(a)[0] == (Pairs(a) + x)[0] == (Pairs(b) + y)[0] == Pairs(b)[0];
    PairCount(a, b);
    Cancel(Pairs(a), x, Pairs(b), y);
    PairsDetermineValue(a.key, a.value, b.value);
    assert a == KwArg(a.key, a.value) && b == KwArg(a.key, b.value);
  }

  lemma MeansSomething(args: seq<Arg>)
    requires args != [] && Pairs(args[0]) != []
    ensures Meaning(args) != []
  {
  }

  lemma {:induction false} MeaningTellsArgs(args: seq<Arg>, others: seq<Arg>)
    requires NamesTell(args, others) && Meaning(args) == Meaning(others)
    requires (forall a | a in args :: Pairs(a) != []) && (forall b | b in others :: Pairs(b) != [])
    ensures args == others
  {
    hide Pairs, NameTells;
    if args != [] { MeansSomething(args); }
    if others != [] { MeansSomething(others); }
    if args != [] && others != [] {
      SameHead(args[0], Meaning(args[1..]), others[0], Meaning(others[1..]));
      MeaningTellsArgs(args[1..], others[1..]);
      assert args == [args[0]] + args[1..] && others == [others[0]] + others[1..];
    }
  }

  /**
   Where names tell keywords apart, two argument lists have the same query exactly when the
   arguments that count and print something are the same, in the same order.
   */
  lemma QueryDeterminesArgs(args: seq<Arg>, others: seq<Arg>)
    requires NamesTell(args, others)
    ensures PairsText(Meaning(KeepLast(args))) == PairsText(Meaning(KeepLast(others)))
       <==> Visible(KeepLast(args)) == Visible(KeepLast(others))
  {
    hide NameTells, Pairs, Meaning, PairsText;
    var v, w := Visible(KeepLast(args)), Visible(KeepLast(others));
    VisibleMeaning(KeepLast(args));
    VisibleMeaning(KeepLast(others));
    KeptAreGiven(args);
    KeptAreGiven(others);
    MeaningOk(KeepLast(args));
    MeaningOk(KeepLast(others));
    PairsRoundTrip(Meaning(v));
    PairsRoundTrip(Meaning(w));
    if Meaning(v) == Meaning(w) {
      MeaningTellsArgs(v, w);
    }
  }
}
