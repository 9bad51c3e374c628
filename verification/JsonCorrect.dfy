/** The parser accepts exactly the grammar up to the depth limit, and builds the tree of the text. */
module JsonCorrect {
  import opened Bytes
  import opened JsonValue
  import opened JsonGrammar
  import opened JsonSyntax
  import opened JsonLexical

  /** What follows a number literal must not continue it. */
  predicate Follows(c: Cst, rest: bytes) {
    c.CNum? ==> NumberEnds(rest)
  }

  // ---- Soundness ----

  lemma TokenSound(st: Strategy, s: bytes) returns (gap: bytes, t: bytes)
    requires TokenAt(st, s).Ok?
    ensures t == TokenAt(st, s).rest && gap == Consumed(s, t)
    ensures s == gap + t && IsGap(st, gap) && TokenStart(st, t)
  {
    t := TokenAt(st, s).rest;
    gap := Consumed(s, t);
    SkipGapSound(st, s);
    Rejoin(s, t);
  }

  lemma {:induction false} BareSound(st: Strategy, t: bytes, depth: nat)
    requires t != [] && depth <= MAX_DEPTH && Bare(st, t, depth).Ok?
    ensures var Ok(c, rest) := Bare(st, t, depth);
            CstOk(st, c) && t == Text(c) + rest && depth + Height(c) <= MAX_DEPTH
    decreases |t|, 0
  {
    hide ListAt, ObjectAt, LexNumber, LexUnits, ItemsText, MembersText, NumberOk, UnitsText, NumberText;
    var Ok(c, rest) := Bare(st, t, depth);
    assert t == [t[0]] + t[1..];
    if t[0] == 0x2d || IsDigit(t[0]) {
      LexNumberSound(t);
    } else if t[0] == 0x22 {
      LexUnitsSound(t[1..]);
      Assoc([0x22], UnitsText(c.us) + [0x22], rest);
    } else if t[0] == 0x7b {
      ObjectAtSound(st, t[1..], depth);
    } else if t[0] == 0x5b {
      ListAtSound(st, t[1..], depth);
    } else {
      var word := Text(c);
      assert t == t[..|word|] + t[|word|..];
    }
  }

  lemma {:induction false} ObjectAtSound(st: Strategy, s: bytes, depth: nat)
    requires depth <= MAX_DEPTH && ObjectAt(st, s, depth).Ok?
    ensures var Ok(c, rest) := ObjectAt(st, s, depth);
            CstOk(st, c) && [0x7b] + s == Text(c) + rest && depth + Height(c) <= MAX_DEPTH
    decreases |s|, 3
  {
    hide Members, MembersText, MembersHeight, MembersOk, TokenAt;
    var Ok(c, rest) := ObjectAt(st, s, depth);
    var gap, u := TokenSound(st, s);
    assert u == [u[0]] + u[1..];
    if u[0] == 0x7d {
      Assoc(gap, [0x7d], rest);
      Assoc([0x7b], gap + [0x7d], rest);
    } else {
      MembersSound(st, gap, u, depth);
      Assoc([0x7b], MembersText(c.members), rest);
    }
  }

  lemma {:induction false} ListAtSound(st: Strategy, s: bytes, depth: nat)
    requires depth <= MAX_DEPTH && ListAt(st, s, depth).Ok?
    ensures var Ok(c, rest) := ListAt(st, s, depth);
            CstOk(st, c) && [0x5b] + s == Text(c) + rest && depth + Height(c) <= MAX_DEPTH
    decreases |s|, 3
  {
    hide Items, ItemsText, ItemsHeight, ItemsOk, TokenAt;
    var Ok(c, rest) := ListAt(st, s, depth);
    var gap, u := TokenSound(st, s);
    assert u == [u[0]] + u[1..];
    if u[0] == 0x5d {
      Assoc(gap, [0x5d], rest);
      Assoc([0x5b], gap + [0x5d], rest);
    } else {
      ItemsSound(st, gap, u, depth);
      Assoc([0x5b], ItemsText(c.items), rest);
    }
  }

  lemma {:induction false} ItemAtSound(st: Strategy, pre: bytes, u: bytes, depth: nat)
    requires u != [] && ItemAt(st, pre, u, depth).Ok?
    ensures var Ok(item, w) := ItemAt(st, pre, u, depth);
            && item.pre == pre && CstOk(st, item.value) && IsGap(st, item.post)
            && u == Text(item.value) + (item.post + w) && depth + 1 + Height(item.value) <= MAX_DEPTH
    decreases |u|, 1
  {
    hide Bare, Text, Height, CstOk, TokenAt;
    BareSound(st, u, depth + 1);
    var gap, w := TokenSound(st, Bare(st, u, depth + 1).rest);
  }

  lemma {:induction false} ItemsSound(st: Strategy, pre: bytes, u: bytes, depth: nat)
    requires u != [] && IsGap(st, pre) && Items(st, pre, u, depth).Ok?
    ensures var Ok(items, rest) := Items(st, pre, u, depth);
            && items != [] && ItemsOk(st, items) && pre + u == ItemsText(items) + rest
            && depth + 1 + ItemsHeight(items) <= MAX_DEPTH
    decreases |u|, 2
  {
    hide Text, Height, CstOk, ItemAt, TokenAt;
    var Ok(items, rest) := Items(st, pre, u, depth);
    ItemAtSound(st, pre, u, depth);
    var Ok(item, w) := ItemAt(st, pre, u, depth);
    assert w == [w[0]] + w[1..];
    if w[0] == 0x2c {
      var gap, x := TokenSound(st, w[1..]);
      ItemsSound(st, gap, x, depth);
      assert items[1..] == Items(st, gap, x, depth).v;
      Assoc([0x2c], ItemsText(items[1..]), rest);
    }
    assert w == AfterItem(items) + rest;
    ItemsTextSplit(items, rest);
  }

  lemma ItemsTextSplit(items: seq<CItem>, rest: bytes)
    requires items != []
    ensures ItemsText(items) + rest
         == items[0].pre + (Text(items[0].value) + (items[0].post + (AfterItem(items) + rest)))
  {
    var CItem(pre, value, post) := items[0];
    Assoc(post, AfterItem(items), rest);
    Assoc(Text(value), post + AfterItem(items), rest);
    Assoc(pre, Text(value) + (post + AfterItem(items)), rest);
  }

  lemma {:induction false} MemberAtSound(st: Strategy, pre: bytes, u: bytes, depth: nat)
    requires u != [] && MemberAt(st, pre, u, depth).Ok?
    ensures var Ok(m, y) := MemberAt(st, pre, u, depth);
            && m.pre == pre && UnitsOk(m.key) && IsGap(st, m.mid) && IsGap(st, m.gap)
            && CstOk(st, m.value) && IsGap(st, m.post) && depth + 1 + Height(m.value) <= MAX_DEPTH
            && u == MemberText(m, y)
    decreases |u|, 1
  {
    hide Bare, Text, Height, CstOk, TokenAt, LexUnits, UnitsText, MemberText, IsGap, UnitsOk;
    var Ok(m, y) := MemberAt(st, pre, u, depth);
    LexUnitsSound(u[1..]);
    var k := LexUnits(u[1..]).rest;
    var mid, w := TokenSound(st, k);
    var gap, x := TokenSound(st, w[1..]);
    BareSound(st, x, depth + 1);
    var r := Bare(st, x, depth + 1).rest;
    var post, y' := TokenSound(st, r);
    MemberTextOf(m, u, k, w, x, r, y);
  }

  lemma MemberTextOf(m: CMember, u: bytes, k: bytes, w: bytes, x: bytes, r: bytes, y: bytes)
    requires u != [] && u[0] == 0x22 && u[1..] == UnitsText(m.key) + [0x22] + k
    requires k == m.mid + w && w != [] && w[0] == 0x3a && w[1..] == m.gap + x
    requires x == Text(m.value) + r && r == m.post + y
    ensures u == MemberText(m, y)
  {
    hide Text, UnitsText;
    Assoc([0x22], UnitsText(m.key) + [0x22], k);
    assert u == [0x22] + u[1..];
    assert w == [0x3a] + w[1..];
  }

  lemma {:induction false} MembersSound(st: Strategy, pre: bytes, u: bytes, depth: nat)
    requires u != [] && IsGap(st, pre) && Members(st, pre, u, depth).Ok?
    ensures var Ok(ms, rest) := Members(st, pre, u, depth);
            && ms != [] && MembersOk(st, ms) && pre + u == MembersText(ms) + rest
            && depth + 1 + MembersHeight(ms) <= MAX_DEPTH
    decreases |u|, 2
  {
    hide Text, Height, CstOk, MemberAt, TokenAt;
    var Ok(ms, rest) := Members(st, pre, u, depth);
    MemberAtSound(st, pre, u, depth);
    var Ok(m, y) := MemberAt(st, pre, u, depth);
    assert y == [y[0]] + y[1..];
    if y[0] == 0x2c {
      var gap, z := TokenSound(st, y[1..]);
      MembersSound(st, gap, z, depth);
      assert ms[1..] == Members(st, gap, z, depth).v;
      Assoc([0x2c], MembersText(ms[1..]), rest);
    }
    assert y == AfterMember(ms) + rest;
    MembersTextSplit(ms, rest);
  }

  /** A member from its key on, followed by `k`. */
  function MemberText(m: CMember, k: bytes): bytes {
    StringText(m.key) + (m.mid + ([0x3a] + (m.gap + (Text(m.value) + (m.post + k)))))
  }

  lemma MembersTextSplit(ms: seq<CMember>, rest: bytes)
    requires ms != []
    ensures MembersText(ms) + rest == ms[0].pre + (MemberText(ms[0], AfterMember(ms) + rest))
  {
    var m := ms[0];
    var a := m.post + AfterMember(ms);
    var b := m.gap + (Text(m.value) + a);
    var c := m.mid + ([0x3a] + b);
    Assoc(m.post, AfterMember(ms), rest);
    Assoc(Text(m.value), a, rest);
    Assoc(m.gap, Text(m.value) + a, rest);
    Assoc([0x3a], b, rest);
    Assoc(m.mid, [0x3a] + b, rest);
    Assoc(StringText(m.key), c, rest);
    Assoc(m.pre, StringText(m.key) + c, rest);
  }

  // ---- Completeness ----

  lemma TextStart(st: Strategy, c: Cst, rest: bytes)
    requires CstOk(st, c)
    ensures TokenStart(st, Text(c) + rest)
  {
    if c.CNum? {
      NumberTextSplit(c.n, rest);
    }
  }

  lemma DelimiterStart(st: Strategy, b: byte, t: bytes)
    requires b == 0x5d || b == 0x7d || b == 0x2c || b == 0x3a || b == 0x22
    ensures TokenStart(st, [b] + t)
  {
  }

  /** A gap or a separator ends a number literal. */
  lemma GapEndsNumber(st: Strategy, gap: bytes, b: byte, t: bytes)
    requires IsGap(st, gap) && (b == 0x5d || b == 0x7d || b == 0x2c)
    ensures NumberEnds(gap + ([b] + t))
  {
    if gap != [] {
      GapStart(st, gap);
    }
  }

  /** The text of a tree parses to the tree when it fits under the limit, and fails as too deep otherwise. */
  lemma {:induction false} BareComplete(st: Strategy, c: Cst, rest: bytes, depth: nat)
    requires CstOk(st, c) && depth <= MAX_DEPTH && Follows(c, rest)
    ensures Text(c) + rest != []
    ensures Bare(st, Text(c) + rest, depth) == if depth + Height(c) <= MAX_DEPTH then Ok(c, rest) else Fail(TooDeep)
    decreases c, 2
  {
    hide ListAt, ObjectAt, LexNumber, LexUnits, ItemsText, MembersText, ItemsOk, MembersOk, UnitsText, NumberText;
    var t := Text(c) + rest;
    match c
    case CNum(n) =>
      LexNumberComplete(n, rest);
      NumberTextSplit(n, rest);
    case CStr(us) =>
      LexUnitsComplete(us, rest);
      Assoc([0x22], UnitsText(us) + [0x22], rest);
      assert t[1..] == UnitsText(us) + [0x22] + rest;
    case CObjEmpty(_) => ObjectAtComplete(st, c, rest, depth);
    case CObj(_) => ObjectAtComplete(st, c, rest, depth);
    case CArrEmpty(_) => ListAtComplete(st, c, rest, depth);
    case CArr(_) => ListAtComplete(st, c, rest, depth);
    case _ =>
      var word := Text(c);
      assert t[..|word|] == word && t[|word|..] == rest;
  }

  lemma {:induction false} ObjectAtComplete(st: Strategy, c: Cst, rest: bytes, depth: nat)
    requires (c.CObj? || c.CObjEmpty?) && CstOk(st, c) && depth <= MAX_DEPTH
    ensures var t := Text(c) + rest;
            && t != [] && t[0] == 0x7b
            && ObjectAt(st, t[1..], depth) == if depth + Height(c) <= MAX_DEPTH then Ok(c, rest) else Fail(TooDeep)
    decreases c, 1
  {
    hide Members, MembersText, AfterMember, MembersHeight, TokenAt, StringText;
    var t := Text(c) + rest;
    match c
    case CObjEmpty(gap) =>
      Assoc(gap, [0x7d], rest);
      Assoc([0x7b], gap + [0x7d], rest);
      assert t[1..] == gap + ([0x7d] + rest);
      DelimiterStart(st, 0x7d, rest);
      TokenAfterGap(st, gap, [0x7d] + rest);
    case CObj(ms) =>
      Assoc([0x7b], MembersText(ms), rest);
      var u := MemberText(ms[0], AfterMember(ms) + rest);
      MembersTextSplit(ms, rest);
      MemberTextStart(st, ms[0], AfterMember(ms) + rest);
      assert t[1..] == ms[0].pre + u;
      TokenAfterGap(st, ms[0].pre, u);
      MembersComplete(st, ms, rest, depth);
  }

  lemma {:induction false} ListAtComplete(st: Strategy, c: Cst, rest: bytes, depth: nat)
    requires (c.CArr? || c.CArrEmpty?) && CstOk(st, c) && depth <= MAX_DEPTH
    ensures var t := Text(c) + rest;
            && t != [] && t[0] == 0x5b
            && ListAt(st, t[1..], depth) == if depth + Height(c) <= MAX_DEPTH then Ok(c, rest) else Fail(TooDeep)
    decreases c, 1
  {
    hide Items, ItemsText, AfterItem, ItemsHeight, TokenAt;
    var t := Text(c) + rest;
    match c
    case CArrEmpty(gap) =>
      Assoc(gap, [0x5d], rest);
      Assoc([0x5b], gap + [0x5d], rest);
      assert t[1..] == gap + ([0x5d] + rest);
      DelimiterStart(st, 0x5d, rest);
      TokenAfterGap(st, gap, [0x5d] + rest);
    case CArr(items) =>
      Assoc([0x5b], ItemsText(items), rest);
      var u := Text(items[0].value) + (items[0].post + (AfterItem(items) + rest));
      ItemsTextSplit(items, rest);
      TextStart(st, items[0].value, items[0].post + (AfterItem(items) + rest));
      assert t[1..] == items[0].pre + u;
      TokenAfterGap(st, items[0].pre, u);
      ItemsComplete(st, items, rest, depth);
  }

  lemma {:induction false} ItemAtComplete(st: Strategy, item: CItem, w: bytes, depth: nat)
    requires IsGap(st, item.post) && CstOk(st, item.value)
    requires depth <= MAX_DEPTH && w != [] && (w[0] == 0x5d || w[0] == 0x2c)
    ensures var u := Text(item.value) + (item.post + w);
            && u != []
            && ItemAt(st, item.pre, u, depth)
            == if depth + 1 + Height(item.value) <= MAX_DEPTH then Ok(item, w) else Fail(TooDeep)
    decreases item, 3
  {
    hide Bare, Text, Height, CstOk, TokenAt;
    TextStart(st, item.value, item.post + w);
    assert w == [w[0]] + w[1..];
    GapEndsNumber(st, item.post, w[0], w[1..]);
    if depth + 1 <= MAX_DEPTH {
      BareComplete(st, item.value, item.post + w, depth + 1);
      DelimiterStart(st, w[0], w[1..]);
      TokenAfterGap(st, item.post, w);
    }
  }

  lemma {:induction false} ItemsComplete(st: Strategy, items: seq<CItem>, rest: bytes, depth: nat)
    requires items != [] && ItemsOk(st, items) && depth <= MAX_DEPTH
    ensures var u := Text(items[0].value) + (items[0].post + (AfterItem(items) + rest));
            && u != []
            && Items(st, items[0].pre, u, depth)
            == if depth + 1 + ItemsHeight(items) <= MAX_DEPTH then Ok(items, rest) else Fail(TooDeep)
    decreases items, 3
  {
    hide Bare, Text, Height, CstOk, ItemsText, TokenAt, ItemAt;
    var w := AfterItem(items) + rest;
    assert items == [items[0]] + items[1..];
    assert w == [w[0]] + w[1..] && (w[0] == 0x5d || w[0] == 0x2c);
    ItemAtComplete(st, items[0], w, depth);
    if |items| > 1 {
      var next := items[1..];
      var r := next[0].post + (AfterItem(next) + rest);
      var x := Text(next[0].value) + r;
      ItemsTextSplit(next, rest);
      Assoc([0x2c], ItemsText(next), rest);
      assert w[1..] == next[0].pre + x;
      TextStart(st, next[0].value, r);
      TokenAfterGap(st, next[0].pre, x);
      ItemsComplete(st, next, rest, depth);
    } else {
      assert w[1..] == rest && items[1..] == [] && items == [items[0]];
    }
  }

  lemma MemberTextStart(st: Strategy, m: CMember, k: bytes)
    ensures TokenStart(st, MemberText(m, k)) && MemberText(m, k)[0] == 0x22
    ensures MemberText(m, k)[1..]
         == UnitsText(m.key) + [0x22] + (m.mid + ([0x3a] + (m.gap + (Text(m.value) + (m.post + k)))))
  {
    var r := m.mid + ([0x3a] + (m.gap + (Text(m.value) + (m.post + k))));
    Assoc([0x22], UnitsText(m.key) + [0x22], r);
  }

  lemma {:induction false} MemberAtComplete(st: Strategy, m: CMember, k: bytes, depth: nat)
    requires IsGap(st, m.mid) && IsGap(st, m.gap) && IsGap(st, m.post) && UnitsOk(m.key) && CstOk(st, m.value)
    requires depth <= MAX_DEPTH && k != [] && (k[0] == 0x7d || k[0] == 0x2c)
    ensures MemberText(m, k) != []
    ensures MemberAt(st, m.pre, MemberText(m, k), depth)
         == if depth + 1 + Height(m.value) <= MAX_DEPTH then Ok(m, k) else Fail(TooDeep)
    decreases m, 3
  {
    hide Bare, Text, Height, CstOk, TokenAt, MemberText, LexUnits, UnitsText, IsGap, TokenStart, NumberEnds;
    var r := m.post + k;
    var x := Text(m.value) + r;
    var w := [0x3a] + (m.gap + x);
    MemberTextStart(st, m, k);
    LexUnitsComplete(m.key, m.mid + w);
    DelimiterStart(st, 0x3a, m.gap + x);
    TokenAfterGap(st, m.mid, w);
    assert w[1..] == m.gap + x;
    TextStart(st, m.value, r);
    TokenAfterGap(st, m.gap, x);
    assert k == [k[0]] + k[1..];
    GapEndsNumber(st, m.post, k[0], k[1..]);
    if depth + 1 <= MAX_DEPTH {
      BareComplete(st, m.value, r, depth + 1);
      DelimiterStart(st, k[0], k[1..]);
      TokenAfterGap(st, m.post, k);
    }
  }

  lemma {:induction false} MembersComplete(st: Strategy, ms: seq<CMember>, rest: bytes, depth: nat)
    requires ms != [] && MembersOk(st, ms) && depth <= MAX_DEPTH
    ensures var u := MemberText(ms[0], AfterMember(ms) + rest);
            && u != []
            && Members(st, ms[0].pre, u, depth)
            == if depth + 1 + MembersHeight(ms) <= MAX_DEPTH then Ok(ms, rest) else Fail(TooDeep)
    decreases ms, 3
  {
    hide Bare, Text, Height, CstOk, MembersText, TokenAt, MemberAt, MemberText;
    var w := AfterMember(ms) + rest;
    assert ms == [ms[0]] + ms[1..];
    assert w == [w[0]] + w[1..] && (w[0] == 0x7d || w[0] == 0x2c);
    MemberAtComplete(st, ms[0], w, depth);
    if |ms| > 1 {
      var next := ms[1..];
      var x := MemberText(next[0], AfterMember(next) + rest);
      MembersTextSplit(next, rest);
      Assoc([0x2c], MembersText(next), rest);
      assert w[1..] == next[0].pre + x;
      MemberTextStart(st, next[0], AfterMember(next) + rest);
      TokenAfterGap(st, next[0].pre, x);
      MembersComplete(st, next, rest, depth);
    } else {
      assert w[1..] == rest && ms[1..] == [] && ms == [ms[0]];
    }
  }
}
