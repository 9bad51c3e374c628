/** Json::parse undoes Json::dump. */
module JsonRoundTrip {
  import opened Bytes
  import opened JsonValue
  import opened JsonGrammar
  import opened JsonSyntax
  import opened JsonLexical
  import opened JsonDocument
  import opened JsonPrinter
  import opened JsonNumbers
  import opened Doubles
  import opened JsonMulti

  /** The depth of nesting: 0 for scalars and empty containers. */
  function Nesting(j: Json): nat {
    match j
    case Arr(items) => if items == [] then 0 else 1 + ItemsNesting(items)
    case Obj(ms) => if ms == [] then 0 else 1 + MembersNesting(ms)
    case _ => 0
  }

  function ItemsNesting(items: seq<Json>): nat {
    if items == [] then 0 else Max(Nesting(items[0]), ItemsNesting(items[1..]))
  }

  function MembersNesting(ms: seq<Member>): nat {
    if ms == [] then 0 else Max(Nesting(ms[0].value), MembersNesting(ms[1..]))
  }

  /** The value with null for every number that is not finite. */
  function Scrubbed(j: Json): Json {
    match j
    case Num(n) => if n.Finite? then j else Nul
    case Arr(items) => Arr(ScrubbedItems(items))
    case Obj(ms) => Obj(ScrubbedMembers(ms))
    case _ => j
  }

  function ScrubbedItems(items: seq<Json>): seq<Json> {
    if items == [] then [] else [Scrubbed(items[0])] + ScrubbedItems(items[1..])
  }

  function ScrubbedMembers(ms: seq<Member>): seq<Member> {
    if ms == [] then [] else [Member(ms[0].key, Scrubbed(ms[0].value))] + ScrubbedMembers(ms[1..])
  }

  // ---- Strings ----

  lemma EscapedUnit(c: byte)
    ensures UnitOk(EscapeByte(c))
    ensures EncodePiece(PieceOf(EscapeByte(c))) == [c] && !IsSurrogate(PieceOf(EscapeByte(c)))
  {
  }

  predicate IsSurrogate(p: Piece) {
    p.Utf16? && 0xd800 <= p.u <= 0xdfff
  }

  function EncodePiece(p: Piece): bytes
    requires p.Utf16? ==> p.u < 0x10000
  {
    match p
    case Byte(b) => [b]
    case Utf16(u) => EncodeUtf8(u)
  }

  lemma JoinPlain(p: Piece, ps: seq<Piece>)
    requires !IsSurrogate(p) && (p.Utf16? ==> p.u < 0x10000)
    requires forall k | 0 <= k < |ps| && ps[k].Utf16? :: ps[k].u < 0x10000
    ensures Join([p] + ps) == EncodePiece(p) + Join(ps)
  {
    assert ([p] + ps)[1..] == ps;
  }

  /** Every byte string survives being printed and parsed as a JSON string. */
  lemma {:induction false} EscapeRoundTrip(v: bytes)
    ensures UnitsOk(EscapeUnits(v)) && StringValue(EscapeUnits(v)) == v
    decreases |v|
  {
    if v != [] {
      var n := UnitLength(v);
      var us := EscapeUnits(v);
      var rest := EscapeUnits(v[n..]);
      EscapeRoundTrip(v[n..]);
      assert us == [us[0]] + rest && us[1..] == rest;
      if n == 1 {
        EscapedUnit(v[0]);
      } else {
        SeparatorUnits();
      }
      assert EncodePiece(PieceOf(us[0])) == v[..n];
      JoinPlain(PieceOf(us[0]), Pieces(rest));
      assert v == v[..n] + v[n..];
    }
  }

  lemma SeparatorUnits()
    ensures UnitOk(LINE_SEPARATOR) && PieceOf(LINE_SEPARATOR) == Utf16(0x2028)
    ensures UnitOk(PARAGRAPH_SEPARATOR) && PieceOf(PARAGRAPH_SEPARATOR) == Utf16(0x2029)
    ensures EncodeUtf8(0x2028) == [0xe2, 0x80, 0xa8] && EncodeUtf8(0x2029) == [0xe2, 0x80, 0xa9]
  {
  }

  // ---- Values ----

  /** The canonical tree of a value is in the grammar, nests as deep, and denotes the value. */
  lemma {:induction false} CanonicalTree(st: Strategy, j: Json)
    requires HoldsDoubles(j) && Ordered(j)
    ensures CstOk(st, Canonical(j)) && Height(Canonical(j)) == Nesting(j) && Value(Canonical(j)) == Scrubbed(j)
    decreases j, 1
  {
    GapEmpty(st);
    match j
    case Num(n) =>
      if n.Finite? { PrintedRoundTrip(n.r); }
    case Str(s) => EscapeRoundTrip(s);
    case Arr(items) =>
      if items != [] {
        CanonicalItemTrees(st, items, true);
        ItemsCount(items, true);
      }
    case Obj(ms) =>
      if ms != [] {
        CanonicalMemberTrees(st, ms, true);
        MembersCount(ms, true);
        ScrubbedSorted(ms);
        MapOfSorted(ScrubbedMembers(ms));
      }
    case _ =>
  }

  lemma LeadIsGap(st: Strategy, first: bool)
    ensures IsGap(st, Lead(first))
  {
    if first { GapEmpty(st); } else { GapPiece(st, [0x20]); }
  }

  lemma {:induction false} CanonicalItemTrees(st: Strategy, items: seq<Json>, first: bool)
    requires forall k | 0 <= k < |items| :: HoldsDoubles(items[k]) && Ordered(items[k])
    ensures var cs := CanonicalItems(items, first);
            ItemsOk(st, cs) && ItemsHeight(cs) == ItemsNesting(items) && ItemValues(cs) == ScrubbedItems(items)
    decreases items, 0
  {
    hide Canonical, CstOk, Height, Value, Scrubbed, Nesting;
    if items != [] {
      var cs := CanonicalItems(items, first);
      LeadIsGap(st, first);
      GapEmpty(st);
      CanonicalTree(st, items[0]);
      CanonicalItemTrees(st, items[1..], false);
      assert cs[1..] == CanonicalItems(items[1..], false);
    }
  }

  lemma {:induction false} CanonicalMemberTrees(st: Strategy, ms: seq<Member>, first: bool)
    requires forall k | 0 <= k < |ms| :: HoldsDoubles(ms[k].value) && Ordered(ms[k].value)
    ensures var cs := CanonicalMembers(ms, first);
            MembersOk(st, cs) && MembersHeight(cs) == MembersNesting(ms) && MemberValues(cs) == ScrubbedMembers(ms)
    decreases ms, 0
  {
    hide Canonical, CstOk, Height, Value, Scrubbed, Nesting, EscapeUnits, StringValue;
    if ms != [] {
      var cs := CanonicalMembers(ms, first);
      LeadIsGap(st, first);
      GapEmpty(st);
      GapPiece(st, [0x20]);
      EscapeRoundTrip(ms[0].key);
      CanonicalTree(st, ms[0].value);
      CanonicalMemberTrees(st, ms[1..], false);
      assert cs[1..] == CanonicalMembers(ms[1..], false);
    }
  }

  lemma {:induction false} ScrubbedKeys(ms: seq<Member>)
    ensures |ScrubbedMembers(ms)| == |ms| && forall k | 0 <= k < |ms| :: ScrubbedMembers(ms)[k].key == ms[k].key
  {
    if ms != [] { ScrubbedKeys(ms[1..]); }
  }

  lemma ScrubbedSorted(ms: seq<Member>)
    requires SortedKeys(ms)
    ensures SortedKeys(ScrubbedMembers(ms))
  {
    ScrubbedKeys(ms);
  }

  /**
   Parsing a dump gives the value back, with null for infinities and NaN, when it nests at most
   200 deep, and fails as too deep otherwise.
   */
  lemma DumpRoundTrip(st: Strategy, j: Json)
    requires HoldsDoubles(j) && Ordered(j)
    ensures ParseDocument(st, DumpText(j)).Ok? <==> Nesting(j) <= 200
    ensures Nesting(j) <= 200 ==> Value(ParseDocument(st, DumpText(j)).v) == Scrubbed(j)
    ensures Nesting(j) > 200 ==> ParseDocument(st, DumpText(j)) == Fail(TooDeep)
  {
    var d := Document([], Canonical(j), []);
    CanonicalTree(st, j);
    GapEmpty(st);
    GapIsEndGap(st, []);
    DocumentComplete(st, d);
    assert DocumentText(d) == DumpText(j);
  }

  // ---- Which values survive unchanged ----

  predicate AllFinite(j: Json) {
    match j
    case Num(n) => n.Finite?
    case Arr(items) => forall k | 0 <= k < |items| :: AllFinite(items[k])
    case Obj(ms) => forall k | 0 <= k < |ms| :: AllFinite(ms[k].value)
    case _ => true
  }

  /** A value comes back as it was exactly when all its numbers are finite. */
  lemma {:induction false} ScrubbedIsIdentity(j: Json)
    ensures Scrubbed(j) == j <==> AllFinite(j)
    decreases j, 1
  {
    match j
    case Arr(items) => ScrubbedItemsIdentity(items);
    case Obj(ms) => ScrubbedMembersIdentity(ms);
    case _ =>
  }

  lemma {:induction false} ScrubbedItemsIdentity(items: seq<Json>)
    ensures ScrubbedItems(items) == items <==> forall k | 0 <= k < |items| :: AllFinite(items[k])
    decreases items, 0
  {
    if items != [] {
      ScrubbedIsIdentity(items[0]);
      ScrubbedItemsIdentity(items[1..]);
      assert items == [items[0]] + items[1..];
      assert ScrubbedItems(items)[0] == Scrubbed(items[0]) && ScrubbedItems(items)[1..] == ScrubbedItems(items[1..]);
    }
  }

  lemma {:induction false} ScrubbedMembersIdentity(ms: seq<Member>)
    ensures ScrubbedMembers(ms) == ms <==> forall k | 0 <= k < |ms| :: AllFinite(ms[k].value)
    decreases ms, 0
  {
    if ms != [] {
      ScrubbedIsIdentity(ms[0].value);
      ScrubbedMembersIdentity(ms[1..]);
      assert ms == [ms[0]] + ms[1..];
      var s := ScrubbedMembers(ms);
      assert s[0].value == Scrubbed(ms[0].value) && s[1..] == ScrubbedMembers(ms[1..]);
    }
  }

  // ---- Streams of dumps ----

  /** The dumps of the values, each with its separator behind it. */
  function DumpStream(js: seq<Json>, seps: seq<bytes>): bytes
    requires |js| == |seps|
  {
    if js == [] then [] else DumpText(js[0]) + (seps[0] + DumpStream(js[1..], seps[1..]))
  }

  /** Separators are gaps, and may be empty; the last one may be a line comment that the input cuts short. */
  ghost predicate SepsOk(st: Strategy, seps: seq<bytes>) {
    forall k | 0 <= k < |seps| :: if k == |seps| - 1 then IsEndGap(st, seps[k]) else IsGap(st, seps[k])
  }

  /** No finite number is directly followed by a finite number without a sign. */
  predicate NumbersApart(js: seq<Json>, seps: seq<bytes>)
    requires |js| == |seps|
  {
    forall k | 0 <= k < |js| - 1 && seps[k] == [] :: !(IsFinite(js[k]) && IsUnsigned(js[k + 1]))
  }

  predicate IsFinite(j: Json) {
    j.Num? && j.n.Finite?
  }

  predicate IsUnsigned(j: Json) {
    IsFinite(j) && j.n.r >= 0.0
  }

  function Canonicals(js: seq<Json>): (cs: seq<Cst>)
    ensures |cs| == |js|
  {
    seq(|js|, k requires 0 <= k < |js| => Canonical(js[k]))
  }

  lemma {:induction false} DumpStreamText(js: seq<Json>, seps: seq<bytes>)
    requires |js| == |seps|
    ensures DumpStream(js, seps) == StreamText(Canonicals(js), seps)
  {
    hide Canonical, Text;
    if js != [] {
      DumpStreamText(js[1..], seps[1..]);
      assert Canonicals(js)[1..] == Canonicals(js[1..]);
    }
  }

  lemma {:induction false} ScrubbedItem(js: seq<Json>)
    ensures |ScrubbedItems(js)| == |js| && forall k | 0 <= k < |js| :: ScrubbedItems(js)[k] == Scrubbed(js[k])
  {
    hide Scrubbed;
    if js != [] { ScrubbedItem(js[1..]); }
  }

  lemma CanonicalSign(j: Json)
    requires HoldsDoubles(j)
    ensures Canonical(j).CNum? <==> IsFinite(j)
    ensures Canonical(j).CNum? && !Canonical(j).n.neg <==> IsUnsigned(j)
  {
    hide Printed, IsDouble;
    if IsFinite(j) { PrintedRoundTrip(j.n.r); }
  }

  lemma CanonicalsApart(js: seq<Json>, seps: seq<bytes>)
    requires |js| == |seps| && forall k | 0 <= k < |js| :: HoldsDoubles(js[k])
    ensures Apart(Canonicals(js), seps) <==> NumbersApart(js, seps)
  {
    hide Canonical, HoldsDoubles, IsFinite, IsUnsigned;
    var cs := Canonicals(js);
    forall k | 0 <= k < |js| - 1
      ensures RunsOn(cs[k], cs[k + 1]) <==> IsFinite(js[k]) && IsUnsigned(js[k + 1])
    {
      CanonicalSign(js[k]);
      CanonicalSign(js[k + 1]);
    }
  }

  /**
   parse_multi reads concatenated or separated dumps as the trees that were printed, to the end and
   without an error, exactly when no finite number is directly followed by one without a sign. They
   denote the values, with null for infinities and NaN.
   */
  lemma StreamRoundTrip(st: Strategy, js: seq<Json>, seps: seq<bytes>)
    requires |js| == |seps| && SepsOk(st, seps)
    requires forall k | 0 <= k < |js| :: HoldsDoubles(js[k]) && Ordered(js[k]) && Nesting(js[k]) <= 200
    ensures MultiAt(st, DumpStream(js, seps)) == Multi(Canonicals(js), [], [], None) <==> NumbersApart(js, seps)
    ensures Values(Canonicals(js)) == ScrubbedItems(js)
  {
    hide Canonical, CstOk, Height, Value, Scrubbed, HoldsDoubles, Ordered, Nesting, IsGap, IsEndGap;
    hide MultiAt, StreamText, DumpStream, Apart, NumbersApart;
    var cs := Canonicals(js);
    forall k | 0 <= k < |js|
      ensures CstOk(st, cs[k]) && Height(cs[k]) <= 200 && Value(cs[k]) == Scrubbed(js[k])
    {
      CanonicalTree(st, js[k]);
    }
    DumpStreamText(js, seps);
    CanonicalsApart(js, seps);
    StreamIsRead(st, cs, seps);
    ScrubbedItem(js);
    assert Values(cs) == ScrubbedItems(js);
  }

  /** With a gap behind every value but the last, a stream of dumps is always read back. */
  lemma SeparatedStreamRoundTrip(st: Strategy, js: seq<Json>, seps: seq<bytes>)
    requires |js| == |seps| && SepsOk(st, seps) && forall k | 0 <= k < |js| - 1 :: seps[k] != []
    requires forall k | 0 <= k < |js| :: HoldsDoubles(js[k]) && Ordered(js[k]) && Nesting(js[k]) <= 200
    ensures var m := MultiAt(st, DumpStream(js, seps));
            Values(m.accepted) == ScrubbedItems(js) && m.extra == [] && m.rest == [] && m.err == None
  {
    StreamRoundTrip(st, js, seps);
  }

  // ---- What is parsed can be printed ----

  lemma {:induction false} ParsedItems(items: seq<CItem>)
    ensures forall k | 0 <= k < |ItemValues(items)| ::
              Ordered(ItemValues(items)[k]) && HoldsDoubles(ItemValues(items)[k])
    ensures ItemsNesting(ItemValues(items)) <= ItemsHeight(items)
    decreases items, 0
  {
    hide Value, Ordered, HoldsDoubles, Nesting, Height;
    if items != [] {
      ParsedValue(items[0].value);
      ParsedItems(items[1..]);
      assert ItemValues(items)[1..] == ItemValues(items[1..]);
    }
  }

  lemma {:induction false} ParsedMembers(ms: seq<CMember>)
    ensures forall m | m in MemberValues(ms) ::
              Ordered(m.value) && HoldsDoubles(m.value) && Nesting(m.value) <= MembersHeight(ms)
    decreases ms, 0
  {
    hide Value, Ordered, HoldsDoubles, Nesting, Height, StringValue;
    if ms != [] {
      ParsedValue(ms[0].value);
      ParsedMembers(ms[1..]);
    }
  }

  lemma {:induction false} NestingBelow(ms: seq<Member>, h: nat)
    requires forall m | m in ms :: Nesting(m.value) <= h
    ensures MembersNesting(ms) <= h
  {
    hide Nesting;
    if ms != [] { NestingBelow(ms[1..], h); }
  }

  /** The value of any tree is in map order at every depth, holds doubles, and nests no deeper than the tree. */
  lemma {:induction false} ParsedValue(c: Cst)
    ensures Ordered(Value(c)) && HoldsDoubles(Value(c)) && Nesting(Value(c)) <= Height(c)
    decreases c, 1
  {
    hide RoundToDouble, IsDouble;
    match c
    case CNum(n) =>
      if RoundToDouble(NumberValue(n)).Finite? { RoundedIsDouble(NumberValue(n)); }
    case CArr(items) => ParsedItems(items);
    case CObj(ms) =>
      var vs := MapOf(MemberValues(ms));
      ParsedMembers(ms);
      MapOfCorrect(MemberValues(ms), []);
      assert forall k | 0 <= k < |vs| :: vs[k] in vs;
      NestingBelow(vs, MembersHeight(ms));
    case _ =>
  }

  /** A literal becomes infinite exactly from half a unit above the greatest double on. */
  lemma LiteralOverflows(n: Number)
    ensures Value(CNum(n)) == Num(PosInf) <==> NumberValue(n) >= Limit()
    ensures Value(CNum(n)) == Num(NegInf) <==> NumberValue(n) <= -Limit()
  {
    hide RoundToDouble, Limit;
    RoundedOverflows(NumberValue(n));
  }

  /**
   Printing what was parsed and parsing it again gives the same value, with null where a literal had
   become infinite; so the same value exactly if none had.
   */
  lemma ParseDumpParse(st: Strategy, s: bytes)
    requires ParseDocument(st, s).Ok?
    ensures var j := Value(ParseDocument(st, s).v);
            var again := ParseDocument(st, DumpText(j));
            again.Ok? && Value(again.v) == Scrubbed(j) && (Value(again.v) == j <==> AllFinite(j))
  {
    hide ParseDocument, Value, HoldsDoubles, Ordered, AllFinite, Nesting, Height, DumpText;
    var d := DocumentSound(st, s);
    var j := Value(d.value);
    ParsedValue(d.value);
    DumpRoundTrip(st, j);
    ScrubbedIsIdentity(j);
  }
}
