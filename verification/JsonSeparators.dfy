/** A dump never holds U+2028 or U+2029, which JavaScript takes for the ends of lines. */
module JsonSeparators {
  import opened Bytes
  import opened JsonValue
  import opened JsonGrammar
  import opened JsonNumbers
  import opened JsonPrinter
  import opened Numerals
  import opened Doubles

  /** The UTF-8 form of one of the two code points. */
  predicate SeparatorAt(t: bytes, k: nat)
    requires k + 2 < |t|
  {
    t[k] == 0xe2 && t[k + 1] == 0x80 && (t[k + 2] == 0xa8 || t[k + 2] == 0xa9)
  }

  predicate NoSeparator(t: bytes) {
    forall k | 0 <= k < |t| - 2 :: !SeparatorAt(t, k)
  }

  /** Free of separators whatever follows. */
  predicate Clean(t: bytes) {
    NoSeparator(t) && (t != [] ==> t[|t| - 1] < 0x80)
  }

  predicate SevenBits(t: bytes) {
    forall k | 0 <= k < |t| :: t[k] < 0x80
  }

  lemma SevenBitsClean(t: bytes)
    requires SevenBits(t)
    ensures Clean(t)
  {
  }

  lemma Joined(a: bytes, b: bytes)
    requires Clean(a) && NoSeparator(b)
    ensures NoSeparator(a + b) && (Clean(b) ==> Clean(a + b))
  {
    var t := a + b;
    forall k | 0 <= k < |t| - 2 ensures !SeparatorAt(t, k) {
      if k + 2 < |a| {
        assert !SeparatorAt(a, k);
      } else if k >= |a| {
        assert !SeparatorAt(b, k - |a|);
      }
    }
  }

  // ---- Strings ----

  function EscapedText(v: bytes): bytes {
    UnitsText(EscapeUnits(v))
  }

  lemma UnitBits(v: bytes)
    requires v != []
    ensures SevenBits(UnitText(FirstUnit(v))) || (FirstUnit(v) == Raw(v[0]) && v[0] >= 0x80 && UnitLength(v) == 1)
  {
  }

  /** A high byte in front stands for itself. */
  lemma HighByte(v: bytes)
    requires EscapedText(v) != [] && EscapedText(v)[0] >= 0x80
    ensures v != [] && v[0] == EscapedText(v)[0] && EscapedText(v)[1..] == EscapedText(v[1..])
    ensures FirstUnit(v) == Raw(v[0])
  {
    hide FirstUnit, UnitLength, EscapeUnits, UnitsText;
    if v == [] {
      NoUnits();
    } else {
      UnitBits(v);
      EscapeStep(v, v[UnitLength(v)..]);
    }
  }

  lemma {:induction false} EscapedIsClean(v: bytes)
    ensures NoSeparator(EscapedText(v))
    decreases |v|
  {
    hide FirstUnit, UnitLength, EscapeUnits, UnitsText, SevenBits;
    if v == [] {
      NoUnits();
    } else {
      var w := v[UnitLength(v)..];
      var u := UnitText(FirstUnit(v));
      UnitBits(v);
      EscapedIsClean(w);
      EscapeStep(v, w);
      if SevenBits(u) {
        SevenBitsClean(u);
        Joined(u, EscapedText(w));
      } else {
        RawFirst(v);
      }
    }
  }

  lemma RawFirst(v: bytes)
    requires v != [] && FirstUnit(v) == Raw(v[0]) && v[0] >= 0x80
    requires EscapedText(v) == [v[0]] + EscapedText(v[1..]) && NoSeparator(EscapedText(v[1..]))
    ensures NoSeparator(EscapedText(v))
  {
    hide UnitLength, EscapeUnits, UnitsText;
    var t, r := EscapedText(v), EscapedText(v[1..]);
    forall k | 0 <= k < |t| - 2 ensures !SeparatorAt(t, k) {
      if k > 0 {
        assert !SeparatorAt(r, k - 1);
      } else if SeparatorAt(t, 0) {
        HighByte(v[1..]);
        HighByte(v[1..][1..]);
      }
    }
  }

  lemma StringIsClean(v: bytes)
    ensures Clean(StringText(EscapeUnits(v)))
  {
    hide EscapeUnits, UnitsText;
    EscapedIsClean(v);
    assert Clean([0x22]);
    assert NoSeparator(EscapedText(v) + [0x22]) by {
      var t := EscapedText(v) + [0x22];
      forall k | 0 <= k < |t| - 2 ensures !SeparatorAt(t, k) {
        if k + 2 < |t| - 1 { assert !SeparatorAt(EscapedText(v), k); }
      }
    }
    Joined([0x22], EscapedText(v) + [0x22]);
  }

  // ---- Values ----

  lemma NumberIsClean(n: Number)
    requires NumberOk(n)
    ensures Clean(NumberText(n))
  {
    assert SevenBits(NumberText(n));
  }

  lemma {:induction false} DumpIsClean(j: Json)
    requires HoldsDoubles(j)
    ensures Clean(Text(Canonical(j)))
    decreases j, 1
  {
    hide NumberText, StringText, EscapeUnits, Clean, Printed, ItemsText, MembersText;
    Words();
    match j
    case Num(n) =>
      if n.Finite? {
        PrintedRoundTrip(n.r);
        NumberIsClean(Printed(n.r));
      }
    case Str(s) => StringIsClean(s);
    case Arr(items) =>
      if items != [] {
        ItemsAreClean(items, true);
        Chain([0x5b], ItemsText(CanonicalItems(items, true)));
      }
    case Obj(ms) =>
      if ms != [] {
        MembersAreClean(ms, true);
        Chain([0x7b], MembersText(CanonicalMembers(ms, true)));
      }
    case _ =>
  }

  lemma Words()
    ensures Clean(NULL) && Clean(TRUE) && Clean(FALSE)
    ensures Clean([0x5b] + ([] + [0x5d])) && Clean([0x7b] + ([] + [0x7d]))
    ensures Clean([0x5b]) && Clean([0x7b]) && Clean([0x5d]) && Clean([0x7d]) && Clean([0x2c]) && Clean([0x3a])
    ensures Clean([0x20]) && Clean([])
  {
  }

  lemma Chain(a: bytes, b: bytes)
    requires Clean(a) && Clean(b)
    ensures Clean(a + b)
  {
    Joined(a, b);
  }

  lemma {:induction false} ItemsAreClean(items: seq<Json>, first: bool)
    requires items != [] && forall k | 0 <= k < |items| :: HoldsDoubles(items[k])
    ensures Clean(ItemsText(CanonicalItems(items, first)))
    decreases items, 0
  {
    hide Canonical, Text, Clean;
    var cs := CanonicalItems(items, first);
    var rest := CanonicalItems(items[1..], false);
    Words();
    assert cs[1..] == rest;
    ItemsCount(items[1..], false);
    DumpIsClean(items[0]);
    if |items| > 1 {
      ItemsAreClean(items[1..], false);
      Chain([0x2c], ItemsText(rest));
    }
    var after := AfterItem(cs);
    assert [] + after == after;
    Chain(Text(Canonical(items[0])), after);
    Chain(Lead(first), Text(Canonical(items[0])) + after);
  }

  lemma {:induction false} MembersAreClean(ms: seq<Member>, first: bool)
    requires ms != [] && forall k | 0 <= k < |ms| :: HoldsDoubles(ms[k].value)
    ensures Clean(MembersText(CanonicalMembers(ms, first)))
    decreases ms, 0
  {
    hide Canonical, Text, Clean, StringText, EscapeUnits;
    var cs := CanonicalMembers(ms, first);
    var rest := CanonicalMembers(ms[1..], false);
    Words();
    assert cs[1..] == rest;
    MembersCount(ms[1..], false);
    StringIsClean(ms[0].key);
    DumpIsClean(ms[0].value);
    if |ms| > 1 {
      MembersAreClean(ms[1..], false);
      Chain([0x2c], MembersText(rest));
    }
    var after := AfterMember(cs);
    var value := Text(Canonical(ms[0].value)) + ([] + after);
    assert [] + after == after;
    Chain(Text(Canonical(ms[0].value)), after);
    Chain([0x20], value);
    Chain([0x3a], [0x20] + value);
    assert [] + ([0x3a] + ([0x20] + value)) == [0x3a] + ([0x20] + value);
    Chain(StringText(EscapeUnits(ms[0].key)), [0x3a] + ([0x20] + value));
    Chain(Lead(first), StringText(EscapeUnits(ms[0].key)) + ([0x3a] + ([0x20] + value)));
  }

  /** Nowhere in a dump are the three bytes of U+2028 or U+2029. */
  lemma DumpHasNoSeparator(j: Json)
    requires HoldsDoubles(j)
    ensures var t := DumpText(j);
            forall k | 0 <= k < |t| - 2 :: !(t[k] == 0xe2 && t[k + 1] == 0x80 && (t[k + 2] == 0xa8 || t[k + 2] == 0xa9))
  {
    hide Canonical, Text;
    DumpIsClean(j);
    var t := DumpText(j);
    forall k | 0 <= k < |t| - 2
      ensures !(t[k] == 0xe2 && t[k + 1] == 0x80 && (t[k + 2] == 0xa8 || t[k + 2] == 0xa9))
    {
      assert !SeparatorAt(t, k);
    }
  }
}
