/** Json::dump: the text of a value is the text of its canonical concrete syntax tree. */
module JsonPrinter {
  import opened Bytes
  import opened JsonValue
  import opened JsonGrammar
  import opened JsonNumbers
  import opened Numerals
  import opened Doubles

  /** Every number in the value is a double, as it is in the original by its type. */
  ghost predicate HoldsDoubles(j: Json) {
    match j
    case Num(n) => n.Finite? ==> IsDouble(n.r)
    case Arr(items) => forall k | 0 <= k < |items| :: HoldsDoubles(items[k])
    case Obj(ms) => forall k | 0 <= k < |ms| :: HoldsDoubles(ms[k].value)
    case _ => true
  }

  // ---- Strings ----

  /** The escape of one byte that cannot stand for itself. */
  function EscapeByte(c: byte): StringUnit {
    if c == 0x5c || c == 0x22 then Simple(c)
    else if c == 0x08 then Simple(0x62)
    else if c == 0x0c then Simple(0x66)
    else if c == 0x0a then Simple(0x6e)
    else if c == 0x0d then Simple(0x72)
    else if c == 0x09 then Simple(0x74)
    else if c <= 0x1f then Code([0x30, 0x30, HexDigit(c / 16), HexDigit(c % 16)])
    else Raw(c)
  }

  const LINE_SEPARATOR: StringUnit := Code([0x32, 0x30, 0x32, 0x38])

  const PARAGRAPH_SEPARATOR: StringUnit := Code([0x32, 0x30, 0x32, 0x39])

  /** Whether the three bytes of U+2028 or U+2029 start the string, the last one being `last`. */
  predicate Separator(v: bytes, last: byte)
    requires v != [] && last != 0
  {
    v[0] == 0xe2 && At(v, 1) == 0x80 && At(v, 2) == last
  }

  /** The unit that stands for the start of the string, and for how many bytes of it. */
  function FirstUnit(v: bytes): StringUnit
    requires v != []
  {
    if Separator(v, 0xa8) then LINE_SEPARATOR
    else if Separator(v, 0xa9) then PARAGRAPH_SEPARATOR
    else EscapeByte(v[0])
  }

  function UnitLength(v: bytes): (n: nat)
    requires v != []
    ensures 0 < n <= |v|
  {
    if Separator(v, 0xa8) || Separator(v, 0xa9) then 3 else 1
  }

  function EscapeUnits(v: bytes): seq<StringUnit> {
    if v == [] then [] else [FirstUnit(v)] + EscapeUnits(v[UnitLength(v)..])
  }

  // ---- Values ----

  function Canonical(j: Json): Cst
    decreases j, 1
  {
    match j
    case Nul => CNull
    case Num(n) => if n.Finite? then CNum(Printed(n.r)) else CNull
    case Bool(b) => CBool(b)
    case Str(s) => CStr(EscapeUnits(s))
    case Arr(items) => if items == [] then CArrEmpty([]) else CArr(CanonicalItems(items, true))
    case Obj(ms) => if ms == [] then CObjEmpty([]) else CObj(CanonicalMembers(ms, true))
  }

  /** A comma is followed by one space. */
  function Lead(first: bool): bytes {
    if first then [] else [0x20]
  }

  function CanonicalItems(items: seq<Json>, first: bool): seq<CItem>
    decreases items, 0
  {
    if items == [] then []
    else [CItem(Lead(first), Canonical(items[0]), [])] + CanonicalItems(items[1..], false)
  }

  function CanonicalMembers(ms: seq<Member>, first: bool): seq<CMember>
    decreases ms, 0
  {
    if ms == [] then []
    else
      [CMember(Lead(first), EscapeUnits(ms[0].key), [], [0x20], Canonical(ms[0].value), [])]
      + CanonicalMembers(ms[1..], false)
  }

  /** The string that dump produces. */
  function DumpText(j: Json): bytes {
    Text(Canonical(j))
  }

  // ---- The printing methods ----

  /** The std::string that the dump functions append to. */
  class StringBuffer {
    var s: bytes

    constructor ()
      ensures s == []
    {
      s := [];
    }

    method Append(t: bytes)
      modifies this
      ensures s == old(s) + t
    {
      s := s + t;
    }
  }

  /** One turn of the loop: the bytes it appends, and how far it moves. */
  lemma EscapeStep(v: bytes, w: bytes)
    requires v != [] && w == v[UnitLength(v)..]
    ensures UnitsText(EscapeUnits(v)) == UnitText(FirstUnit(v)) + UnitsText(EscapeUnits(w))
  {
    hide FirstUnit, UnitLength, UnitText;
    assert ([FirstUnit(v)] + EscapeUnits(w))[1..] == EscapeUnits(w);
  }

  /** The text of a string. The two look-ahead reads never go past the terminating NUL. */
  method DumpString(value: bytes, out: StringBuffer)
    modifies out
    ensures out.s == old(out.s) + StringText(EscapeUnits(value))
  {
    hide EscapeUnits, UnitsText;
    out.Append([0x22]);
    ghost var start, text := out.s, UnitsText(EscapeUnits(value));
    var i := 0;
    assert value[0..] == value;
    while i < |value|
      invariant 0 <= i <= |value|
      invariant out.s + UnitsText(EscapeUnits(value[i..])) == start + text
    {
      ghost var before, v := out.s, value[i..];
      var ch := value[i];
      if ch == 0x5c {
        out.Append([0x5c, 0x5c]);
      } else if ch == 0x22 {
        out.Append([0x5c, 0x22]);
      } else if ch == 0x08 {
        out.Append([0x5c, 0x62]);
      } else if ch == 0x0c {
        out.Append([0x5c, 0x66]);
      } else if ch == 0x0a {
        out.Append([0x5c, 0x6e]);
      } else if ch == 0x0d {
        out.Append([0x5c, 0x72]);
      } else if ch == 0x09 {
        out.Append([0x5c, 0x74]);
      } else if ch <= 0x1f {
        out.Append([0x5c, 0x75, 0x30, 0x30, HexDigit(ch / 16), HexDigit(ch % 16)]);
      } else if ch == 0xe2 && At(value, i + 1) == 0x80 && At(value, i + 2) == 0xa8 {
        assert Separator(v, 0xa8);
        out.Append([0x5c, 0x75, 0x32, 0x30, 0x32, 0x38]);
        i := i + 2;
      } else if ch == 0xe2 && At(value, i + 1) == 0x80 && At(value, i + 2) == 0xa9 {
        assert Separator(v, 0xa9);
        out.Append([0x5c, 0x75, 0x32, 0x30, 0x32, 0x39]);
        i := i + 2;
      } else {
        out.Append([ch]);
      }
      i := i + 1;
      assert out.s == before + UnitText(FirstUnit(v));
      EscapeStep(v, value[i..]);
      Assoc(before, UnitText(FirstUnit(v)), UnitsText(EscapeUnits(value[i..])));
    }
    NoUnits();
    assert value[i..] == [] && out.s + [] == out.s;
    out.Append([0x22]);
    Assoc(old(out.s) + [0x22], text, [0x22]);
    Assoc(old(out.s), [0x22], text + [0x22]);
  }

  lemma NoUnits()
    ensures UnitsText(EscapeUnits([])) == []
  {
  }

  /** What is still to be printed of a list before item `k`: separator, items and closing bracket. */
  function RestOfList(items: seq<Json>, k: nat): bytes
    requires k <= |items|
  {
    if k == |items| then [0x5d]
    else (if k == 0 then [] else [0x2c]) + ItemsText(CanonicalItems(items[k..], k == 0))
  }

  function RestOfObject(ms: seq<Member>, k: nat): bytes
    requires k <= |ms|
  {
    if k == |ms| then [0x7d]
    else (if k == 0 then [] else [0x2c]) + MembersText(CanonicalMembers(ms[k..], k == 0))
  }

  /** The separator that comes before item `k`. */
  function Comma(k: nat): bytes {
    if k == 0 then [] else [0x2c, 0x20]
  }

  lemma ListStart(items: seq<Json>)
    ensures Text(Canonical(Arr(items))) == [0x5b] + RestOfList(items, 0)
  {
    assert items[0..] == items;
    assert [] + ItemsText(CanonicalItems(items, true)) == ItemsText(CanonicalItems(items, true));
    assert [] + [0x5d] == [0x5d];
  }

  lemma ListStep(items: seq<Json>, k: nat)
    requires k < |items|
    ensures RestOfList(items, k) == Comma(k) + (Text(Canonical(items[k])) + RestOfList(items, k + 1))
  {
    hide Canonical, Text;
    var cs := CanonicalItems(items[k..], k == 0);
    assert items[k..][1..] == items[k + 1..];
    assert cs[1..] == CanonicalItems(items[k + 1..], false);
    ItemsCount(items[k + 1..], false);
    assert [] + AfterItem(cs) == AfterItem(cs) == RestOfList(items, k + 1);
    assert Comma(k) == (if k == 0 then [] else [0x2c]) + Lead(k == 0);
    Assoc(if k == 0 then [] else [0x2c], Lead(k == 0), Text(Canonical(items[k])) + RestOfList(items, k + 1));
  }

  lemma {:induction false} ItemsCount(items: seq<Json>, first: bool)
    ensures |CanonicalItems(items, first)| == |items|
  {
    if items != [] { ItemsCount(items[1..], false); }
  }

  lemma ObjectStart(ms: seq<Member>)
    ensures Text(Canonical(Obj(ms))) == [0x7b] + RestOfObject(ms, 0)
  {
    assert ms[0..] == ms;
    assert [] + MembersText(CanonicalMembers(ms, true)) == MembersText(CanonicalMembers(ms, true));
    assert [] + [0x7d] == [0x7d];
  }

  lemma ObjectStep(ms: seq<Member>, k: nat)
    requires k < |ms|
    ensures RestOfObject(ms, k)
         == Comma(k) + (StringText(EscapeUnits(ms[k].key))
            + ([0x3a, 0x20] + (Text(Canonical(ms[k].value)) + RestOfObject(ms, k + 1))))
  {
    hide Canonical, Text, StringText, EscapeUnits;
    var cs := CanonicalMembers(ms[k..], k == 0);
    var key, v, r := StringText(EscapeUnits(ms[k].key)), Text(Canonical(ms[k].value)), RestOfObject(ms, k + 1);
    assert ms[k..][1..] == ms[k + 1..];
    assert cs[1..] == CanonicalMembers(ms[k + 1..], false);
    MembersCount(ms[k + 1..], false);
    assert [] + AfterMember(cs) == r;
    assert [] + ([0x3a] + ([0x20] + (v + r))) == [0x3a, 0x20] + (v + r);
    assert Comma(k) == (if k == 0 then [] else [0x2c]) + Lead(k == 0);
    Assoc(if k == 0 then [] else [0x2c], Lead(k == 0), key + ([0x3a, 0x20] + (v + r)));
  }

  lemma {:induction false} MembersCount(ms: seq<Member>, first: bool)
    ensures |CanonicalMembers(ms, first)| == |ms|
  {
    if ms != [] { MembersCount(ms[1..], false); }
  }

  /** Json::dump. */
  method Dump(j: Json, out: StringBuffer)
    modifies out
    ensures out.s == old(out.s) + DumpText(j)
    decreases j, 1
  {
    match j
    case Nul => out.Append(Ascii("null"));
    case Num(n) =>
      if n.Finite? {
        out.Append(NumberText(Printed(n.r)));
      } else {
        out.Append(Ascii("null"));
      }
    case Bool(b) => out.Append(if b then Ascii("true") else Ascii("false"));
    case Str(s) => DumpString(s, out);
    case Arr(items) => DumpList(items, out);
    case Obj(ms) => DumpObject(ms, out);
  }

  method DumpList(items: seq<Json>, out: StringBuffer)
    modifies out
    ensures out.s == old(out.s) + DumpText(Arr(items))
    decreases items, 0
  {
    hide Text, Canonical, RestOfList;
    ListStart(items);
    ghost var all := old(out.s) + DumpText(Arr(items));
    Assoc(old(out.s), [0x5b], RestOfList(items, 0));
    var first := true;
    out.Append([0x5b]);
    for k := 0 to |items|
      invariant first <==> k == 0
      invariant out.s + RestOfList(items, k) == all
    {
      ListStep(items, k);
      ghost var before := out.s;
      if !first {
        out.Append([0x2c, 0x20]);
      }
      assert out.s == before + Comma(k);
      ghost var v, r := Text(Canonical(items[k])), RestOfList(items, k + 1);
      Dump(items[k], out);
      first := false;
      Assoc(before, Comma(k), v + r);
      Assoc(before + Comma(k), v, r);
    }
    ListEnd(items);
    out.Append([0x5d]);
  }

  lemma ListEnd(items: seq<Json>)
    ensures RestOfList(items, |items|) == [0x5d]
  {
  }

  method DumpObject(ms: seq<Member>, out: StringBuffer)
    modifies out
    ensures out.s == old(out.s) + DumpText(Obj(ms))
    decreases ms, 0
  {
    hide Text, Canonical, RestOfObject, StringText, EscapeUnits;
    ObjectStart(ms);
    ghost var all := old(out.s) + DumpText(Obj(ms));
    Assoc(old(out.s), [0x7b], RestOfObject(ms, 0));
    var first := true;
    out.Append([0x7b]);
    for k := 0 to |ms|
      invariant first <==> k == 0
      invariant out.s + RestOfObject(ms, k) == all
    {
      ObjectStep(ms, k);
      ghost var before := out.s;
      if !first {
        out.Append([0x2c, 0x20]);
      }
      assert out.s == before + Comma(k);
      ghost var key, v, r := StringText(EscapeUnits(ms[k].key)), Text(Canonical(ms[k].value)), RestOfObject(ms, k + 1);
      DumpString(ms[k].key, out);
      out.Append([0x3a, 0x20]);
      Dump(ms[k].value, out);
      first := false;
      Assoc(before, Comma(k), key + ([0x3a, 0x20] + (v + r)));
      Assoc(before + Comma(k), key, [0x3a, 0x20] + (v + r));
      Assoc(before + Comma(k) + key, [0x3a, 0x20], v + r);
      Assoc(before + Comma(k) + key + [0x3a, 0x20], v, r);
    }
    ObjectEnd(ms);
    out.Append([0x7d]);
  }

  lemma ObjectEnd(ms: seq<Member>)
    ensures RestOfObject(ms, |ms|) == [0x7d]
  {
  }
}
