/** Json::operator== and Json::operator<, with the shortcut for shared pointers. */
module JsonCompare {
  import opened Bytes
  import opened JsonValue

  /** The position of the type in the enumeration Json::Type. */
  function TypeRank(j: Json): nat {
    match j
    case Nul => 0
    case Num(_) => 1
    case Bool(_) => 2
    case Str(_) => 3
    case Arr(_) => 4
    case Obj(_) => 5
  }

  predicate DoubleEqual(a: Double, b: Double) {
    !a.NaN? && a == b
  }

  predicate DoubleLess(a: Double, b: Double) {
    match a
    case NaN => false
    case NegInf => b.Finite? || b.PosInf?
    case Finite(x) => b.PosInf? || (b.Finite? && x < b.r)
    case PosInf => false
  }

  predicate NoNaN(j: Json) {
    match j
    case Num(n) => !n.NaN?
    case Arr(items) => forall k | 0 <= k < |items| :: NoNaN(items[k])
    case Obj(ms) => forall k | 0 <= k < |ms| :: NoNaN(ms[k].value)
    case _ => true
  }

  function Size(j: Json): nat {
    match j
    case Arr(items) => 1 + ItemsSize(items)
    case Obj(ms) => 1 + MembersSize(ms)
    case _ => 1
  }

  function ItemsSize(items: seq<Json>): nat {
    if items == [] then 0 else 1 + Size(items[0]) + ItemsSize(items[1..])
  }

  function MembersSize(ms: seq<Member>): nat {
    if ms == [] then 0 else 1 + Size(ms[0].value) + MembersSize(ms[1..])
  }

  // ---- The order of values ----

  /** The order of values: by type, numbers by value, strings by bytes, lists and objects lexicographically. */
  predicate Below(a: Json, b: Json)
    decreases Size(a) + Size(b), 0
  {
    if TypeRank(a) != TypeRank(b) then TypeRank(a) < TypeRank(b)
    else match a
      case Nul => false
      case Num(n) => DoubleLess(n, b.n)
      case Bool(v) => !v && b.b
      case Str(s) => LexLess(s, b.s)
      case Arr(xs) => ItemsBelow(xs, b.items)
      case Obj(ms) => MembersBelow(ms, b.members)
  }

  /** Item by item; of two lists that agree so far the shorter is below. */
  predicate ItemsBelow(xs: seq<Json>, ys: seq<Json>)
    decreases ItemsSize(xs) + ItemsSize(ys)
  {
    if ys == [] then false
    else if xs == [] then true
    else if Below(xs[0], ys[0]) then true
    else if Below(ys[0], xs[0]) then false
    else ItemsBelow(xs[1..], ys[1..])
  }

  /** By key, then by value. */
  predicate PairBelow(x: Member, y: Member)
    decreases Size(x.value) + Size(y.value), 1
  {
    LexLess(x.key, y.key) || (!LexLess(y.key, x.key) && Below(x.value, y.value))
  }

  predicate MembersBelow(xs: seq<Member>, ys: seq<Member>)
    decreases MembersSize(xs) + MembersSize(ys)
  {
    if ys == [] then false
    else if xs == [] then true
    else if PairBelow(xs[0], ys[0]) then true
    else if PairBelow(ys[0], xs[0]) then false
    else MembersBelow(xs[1..], ys[1..])
  }

  lemma {:induction false} BelowIrreflexive(a: Json)
    ensures !Below(a, a)
    decreases Size(a), 1
  {
    match a
    case Str(s) => LexTrichotomy(s, s);
    case Arr(items) => ItemsBelowIrreflexive(items);
    case Obj(ms) => MembersBelowIrreflexive(ms);
    case _ =>
  }

  lemma {:induction false} ItemsBelowIrreflexive(xs: seq<Json>)
    ensures !ItemsBelow(xs, xs)
    decreases ItemsSize(xs)
  {
    if xs != [] {
      BelowIrreflexive(xs[0]);
      ItemsBelowIrreflexive(xs[1..]);
    }
  }

  lemma {:induction false} MembersBelowIrreflexive(xs: seq<Member>)
    ensures !MembersBelow(xs, xs)
    decreases MembersSize(xs)
  {
    if xs != [] {
      LexTrichotomy(xs[0].key, xs[0].key);
      BelowIrreflexive(xs[0].value);
      MembersBelowIrreflexive(xs[1..]);
    }
  }

  /** Without NaN, of two different values exactly one is below the other. */
  lemma {:induction false} Trichotomy(a: Json, b: Json)
    requires NoNaN(a) && NoNaN(b)
    ensures a == b ==> !Below(a, b) && !Below(b, a)
    ensures a != b ==> Below(a, b) != Below(b, a)
    decreases Size(a) + Size(b), 1
  {
    if a == b {
      BelowIrreflexive(a);
    } else if a.Str? && b.Str? {
      LexTrichotomy(a.s, b.s);
    } else if a.Arr? && b.Arr? {
      ItemsTrichotomy(a.items, b.items);
    } else if a.Obj? && b.Obj? {
      MembersTrichotomy(a.members, b.members);
    }
  }

  lemma {:induction false} ItemsTrichotomy(xs: seq<Json>, ys: seq<Json>)
    requires xs != ys
    requires forall k | 0 <= k < |xs| :: NoNaN(xs[k])
    requires forall k | 0 <= k < |ys| :: NoNaN(ys[k])
    ensures ItemsBelow(xs, ys) != ItemsBelow(ys, xs)
    decreases ItemsSize(xs) + ItemsSize(ys)
  {
    if xs != [] && ys != [] {
      Trichotomy(xs[0], ys[0]);
      if xs[0] == ys[0] {
        assert xs == [xs[0]] + xs[1..] && ys == [ys[0]] + ys[1..];
        ItemsTrichotomy(xs[1..], ys[1..]);
      }
    }
  }

  lemma {:induction false} MembersTrichotomy(xs: seq<Member>, ys: seq<Member>)
    requires xs != ys
    requires forall k | 0 <= k < |xs| :: NoNaN(xs[k].value)
    requires forall k | 0 <= k < |ys| :: NoNaN(ys[k].value)
    ensures MembersBelow(xs, ys) != MembersBelow(ys, xs)
    decreases MembersSize(xs) + MembersSize(ys)
  {
    if xs != [] && ys != [] {
      LexTrichotomy(xs[0].key, ys[0].key);
      Trichotomy(xs[0].value, ys[0].value);
      if xs[0] == ys[0] {
        assert xs == [xs[0]] + xs[1..] && ys == [ys[0]] + ys[1..];
        MembersTrichotomy(xs[1..], ys[1..]);
      }
    }
  }

  lemma {:induction false} BelowTransitive(a: Json, b: Json, c: Json)
    requires NoNaN(a) && NoNaN(b) && NoNaN(c)
    requires Below(a, b) && Below(b, c)
    ensures Below(a, c)
    decreases Size(a) + Size(b) + Size(c), 1
  {
    if a.Str? && b.Str? && c.Str? {
      LexTransitive(a.s, b.s, c.s);
    } else if a.Arr? && b.Arr? && c.Arr? {
      ItemsBelowTransitive(a.items, b.items, c.items);
    } else if a.Obj? && b.Obj? && c.Obj? {
      MembersBelowTransitive(a.members, b.members, c.members);
    }
  }

  lemma {:induction false} ItemsBelowTransitive(xs: seq<Json>, ys: seq<Json>, zs: seq<Json>)
    requires forall k | 0 <= k < |xs| :: NoNaN(xs[k])
    requires forall k | 0 <= k < |ys| :: NoNaN(ys[k])
    requires forall k | 0 <= k < |zs| :: NoNaN(zs[k])
    requires ItemsBelow(xs, ys) && ItemsBelow(ys, zs)
    ensures ItemsBelow(xs, zs)
    decreases ItemsSize(xs) + ItemsSize(ys) + ItemsSize(zs)
  {
    if xs != [] {
      var x, y, z := xs[0], ys[0], zs[0];
      Trichotomy(x, y);
      Trichotomy(y, z);
      Trichotomy(x, z);
      if x == y && y == z {
        ItemsBelowTransitive(xs[1..], ys[1..], zs[1..]);
      } else if x != y && y != z {
        BelowTransitive(x, y, z);
      }
    }
  }

  lemma {:induction false} MembersBelowTransitive(xs: seq<Member>, ys: seq<Member>, zs: seq<Member>)
    requires forall k | 0 <= k < |xs| :: NoNaN(xs[k].value)
    requires forall k | 0 <= k < |ys| :: NoNaN(ys[k].value)
    requires forall k | 0 <= k < |zs| :: NoNaN(zs[k].value)
    requires MembersBelow(xs, ys) && MembersBelow(ys, zs)
    ensures MembersBelow(xs, zs)
    decreases MembersSize(xs) + MembersSize(ys) + MembersSize(zs)
  {
    if xs != [] {
      var x, y, z := xs[0], ys[0], zs[0];
      PairTrichotomy(x, y);
      PairTrichotomy(y, z);
      PairTrichotomy(x, z);
      if x == y && y == z {
        MembersBelowTransitive(xs[1..], ys[1..], zs[1..]);
      } else if x != y && y != z {
        PairBelowTransitive(x, y, z);
      }
    }
  }

  lemma {:induction false} PairBelowTransitive(x: Member, y: Member, z: Member)
    requires NoNaN(x.value) && NoNaN(y.value) && NoNaN(z.value)
    requires PairBelow(x, y) && PairBelow(y, z)
    ensures PairBelow(x, z)
    decreases Size(x.value) + Size(y.value) + Size(z.value), 2
  {
    LexTrichotomy(x.key, y.key);
    LexTrichotomy(y.key, z.key);
    LexTrichotomy(x.key, z.key);
    if x.key != y.key && y.key != z.key {
      LexTransitive(x.key, y.key, z.key);
    } else if x.key == y.key == z.key {
      BelowTransitive(x.value, y.value, z.value);
    }
  }

  lemma PairTrichotomy(x: Member, y: Member)
    requires NoNaN(x.value) && NoNaN(y.value)
    ensures x == y ==> !PairBelow(x, y)
    ensures x != y ==> PairBelow(x, y) != PairBelow(y, x)
  {
    LexTrichotomy(x.key, y.key);
    Trichotomy(x.value, y.value);
  }

  // ---- The order is lexicographic ----

  /** The lists agree before `p`, where the first one ends or has the smaller item. */
  predicate DiffersAt(xs: seq<Json>, ys: seq<Json>, p: nat) {
    p <= |xs| && p < |ys| && xs[..p] == ys[..p] && (p == |xs| || Below(xs[p], ys[p]))
  }

  /** Without NaN a list is below another one exactly if it is at the first difference, or is a proper prefix. */
  lemma {:induction false} ListOrderIsLexicographic(xs: seq<Json>, ys: seq<Json>)
    requires NoNaN(Arr(xs)) && NoNaN(Arr(ys))
    ensures ItemsBelow(xs, ys) <==> exists p: nat :: DiffersAt(xs, ys, p)
  {
    hide Below, NoNaN;
    if xs == [] || ys == [] {
      assert DiffersAt(xs, ys, 0) <==> xs == [] && ys != [];
    } else {
      HeadsAndTails(xs, ys);
      ListOrderIsLexicographic(xs[1..], ys[1..]);
      if p: nat :| DiffersAt(xs[1..], ys[1..], p) {
        if xs[0] == ys[0] {
          assert xs[..p + 1] == [xs[0]] + xs[1..][..p] && ys[..p + 1] == [ys[0]] + ys[1..][..p];
          assert DiffersAt(xs, ys, p + 1);
        }
      }
      if p: nat :| DiffersAt(xs, ys, p) {
        if p > 0 {
          assert xs[0] == xs[..p][0] == ys[..p][0] == ys[0];
          assert xs[1..][..p - 1] == xs[..p][1..] && ys[1..][..p - 1] == ys[..p][1..];
          assert DiffersAt(xs[1..], ys[1..], p - 1);
        }
      }
      if Below(xs[0], ys[0]) {
        assert DiffersAt(xs, ys, 0);
      }
    }
  }

  lemma HeadsAndTails(xs: seq<Json>, ys: seq<Json>)
    requires NoNaN(Arr(xs)) && NoNaN(Arr(ys)) && xs != [] && ys != []
    ensures NoNaN(Arr(xs[1..])) && NoNaN(Arr(ys[1..]))
    ensures Below(xs[0], ys[0]) ==> xs[0] != ys[0] && !Below(ys[0], xs[0])
    ensures xs[0] != ys[0] ==> Below(xs[0], ys[0]) || Below(ys[0], xs[0])
    ensures xs[0] == ys[0] ==> !Below(xs[0], ys[0]) && !Below(ys[0], xs[0])
  {
    hide Below;
    assert NoNaN(xs[0]) && NoNaN(ys[0]);
    Trichotomy(xs[0], ys[0]);
  }

  /** The members agree before `p`, where the first object ends, or has the smaller key, or the smaller value. */
  predicate MembersDifferAt(xs: seq<Member>, ys: seq<Member>, p: nat) {
    && p <= |xs| && p < |ys| && xs[..p] == ys[..p]
    && (p == |xs| || LexLess(xs[p].key, ys[p].key) || (xs[p].key == ys[p].key && Below(xs[p].value, ys[p].value)))
  }

  lemma {:induction false} ObjectOrderIsLexicographic(xs: seq<Member>, ys: seq<Member>)
    requires NoNaN(Obj(xs)) && NoNaN(Obj(ys))
    ensures MembersBelow(xs, ys) <==> exists p: nat :: MembersDifferAt(xs, ys, p)
  {
    hide Below, NoNaN, PairBelow, LexLess;
    if xs == [] || ys == [] {
      assert MembersDifferAt(xs, ys, 0) <==> xs == [] && ys != [];
    } else {
      MemberHeadsAndTails(xs, ys);
      ObjectOrderIsLexicographic(xs[1..], ys[1..]);
      if p: nat :| MembersDifferAt(xs[1..], ys[1..], p) {
        if xs[0] == ys[0] {
          assert xs[..p + 1] == [xs[0]] + xs[1..][..p] && ys[..p + 1] == [ys[0]] + ys[1..][..p];
          assert MembersDifferAt(xs, ys, p + 1);
        }
      }
      if p: nat :| MembersDifferAt(xs, ys, p) {
        if p > 0 {
          assert xs[0] == xs[..p][0] == ys[..p][0] == ys[0];
          assert xs[1..][..p - 1] == xs[..p][1..] && ys[1..][..p - 1] == ys[..p][1..];
          assert MembersDifferAt(xs[1..], ys[1..], p - 1);
        }
      }
      if PairBelow(xs[0], ys[0]) {
        assert MembersDifferAt(xs, ys, 0);
      }
    }
  }

  lemma MemberHeadsAndTails(xs: seq<Member>, ys: seq<Member>)
    requires NoNaN(Obj(xs)) && NoNaN(Obj(ys)) && xs != [] && ys != []
    ensures NoNaN(Obj(xs[1..])) && NoNaN(Obj(ys[1..]))
    ensures PairBelow(xs[0], ys[0])
       <==> LexLess(xs[0].key, ys[0].key) || (xs[0].key == ys[0].key && Below(xs[0].value, ys[0].value))
    ensures PairBelow(xs[0], ys[0]) ==> xs[0] != ys[0] && !PairBelow(ys[0], xs[0])
    ensures xs[0] != ys[0] ==> PairBelow(xs[0], ys[0]) || PairBelow(ys[0], xs[0])
    ensures xs[0] == ys[0] ==> !PairBelow(xs[0], ys[0]) && !PairBelow(ys[0], xs[0])
  {
    hide Below, LexLess;
    assert NoNaN(xs[0].value) && NoNaN(ys[0].value);
    PairTrichotomy(xs[0], ys[0]);
    LexTrichotomy(xs[0].key, ys[0].key);
  }

  /** Before `p` neither item is below the other one; there the first list ends or has the smaller item. */
  predicate TiesUpTo(xs: seq<Json>, ys: seq<Json>, p: nat) {
    && p <= |xs| && p < |ys| && (p == |xs| || Below(xs[p], ys[p]))
    && forall k | 0 <= k < p :: !Below(xs[k], ys[k]) && !Below(ys[k], xs[k])
  }

  /** With NaN as well: items of which neither is below the other are passed over, equal or not. */
  lemma {:induction false} ListOrderPassesTies(xs: seq<Json>, ys: seq<Json>)
    ensures ItemsBelow(xs, ys) <==> exists p: nat :: TiesUpTo(xs, ys, p)
  {
    hide Below;
    if xs == [] || ys == [] {
      assert TiesUpTo(xs, ys, 0) <==> xs == [] && ys != [];
    } else {
      ListOrderPassesTies(xs[1..], ys[1..]);
      if p: nat :| TiesUpTo(xs[1..], ys[1..], p) {
        if !Below(xs[0], ys[0]) && !Below(ys[0], xs[0]) {
          assert forall k | 0 < k <= p :: xs[k] == xs[1..][k - 1] && ys[k] == ys[1..][k - 1];
          assert TiesUpTo(xs, ys, p + 1);
        }
      }
      if p: nat :| TiesUpTo(xs, ys, p) {
        if p > 0 {
          assert TiesUpTo(xs[1..], ys[1..], p - 1);
        }
      }
      if Below(xs[0], ys[0]) {
        assert TiesUpTo(xs, ys, 0);
      }
    }
  }

  predicate MembersTieUpTo(xs: seq<Member>, ys: seq<Member>, p: nat) {
    && p <= |xs| && p < |ys|
    && (p == |xs| || LexLess(xs[p].key, ys[p].key) || (xs[p].key == ys[p].key && Below(xs[p].value, ys[p].value)))
    && forall k | 0 <= k < p ::
         xs[k].key == ys[k].key && !Below(xs[k].value, ys[k].value) && !Below(ys[k].value, xs[k].value)
  }

  lemma {:induction false} ObjectOrderPassesTies(xs: seq<Member>, ys: seq<Member>)
    ensures MembersBelow(xs, ys) <==> exists p: nat :: MembersTieUpTo(xs, ys, p)
  {
    hide Below, LexLess;
    if xs == [] || ys == [] {
      assert MembersTieUpTo(xs, ys, 0) <==> xs == [] && ys != [];
    } else {
      LexTrichotomy(xs[0].key, ys[0].key);
      ObjectOrderPassesTies(xs[1..], ys[1..]);
      if p: nat :| MembersTieUpTo(xs[1..], ys[1..], p) {
        if !PairBelow(xs[0], ys[0]) && !PairBelow(ys[0], xs[0]) {
          assert forall k | 0 < k <= p :: xs[k] == xs[1..][k - 1] && ys[k] == ys[1..][k - 1];
          assert MembersTieUpTo(xs, ys, p + 1);
        }
      }
      if p: nat :| MembersTieUpTo(xs, ys, p) {
        if p > 0 {
          assert MembersTieUpTo(xs[1..], ys[1..], p - 1);
        }
      }
      if PairBelow(xs[0], ys[0]) {
        assert MembersTieUpTo(xs, ys, 0);
      }
    }
  }

  // ---- The operators ----

  /**
   Says whether a comparison meets one pointer on both sides: the path of indexes it came down by,
   and the two values there. Equal values may share a pointer in one place and be copies in another.
   */
  type Sharing = (seq<nat>, Json, Json) -> bool

  /** Two values behind one pointer are one value. */
  ghost predicate Sound(same: Sharing) {
    forall p, a, b :: same(p, a, b) ==> a == b
  }

  /** Json::operator==, for values at the path `at`. */
  predicate Equal(same: Sharing, at: seq<nat>, a: Json, b: Json)
    decreases Size(a) + Size(b), 0
  {
    if same(at, a, b) then true
    else if TypeRank(a) != TypeRank(b) then false
    else match a
      case Nul => true
      case Num(n) => DoubleEqual(n, b.n)
      case Bool(v) => v == b.b
      case Str(s) => s == b.s
      case Arr(xs) => |xs| == |b.items| && ItemsEqual(same, at, 0, xs, b.items)
      case Obj(ms) => |ms| == |b.members| && MembersEqual(same, at, 0, ms, b.members)
  }

  /** The items from index `k` on. */
  predicate ItemsEqual(same: Sharing, at: seq<nat>, k: nat, xs: seq<Json>, ys: seq<Json>)
    requires |xs| == |ys|
    decreases ItemsSize(xs) + ItemsSize(ys)
  {
    xs == [] || (Equal(same, at + [k], xs[0], ys[0]) && ItemsEqual(same, at, k + 1, xs[1..], ys[1..]))
  }

  predicate MembersEqual(same: Sharing, at: seq<nat>, k: nat, xs: seq<Member>, ys: seq<Member>)
    requires |xs| == |ys|
    decreases MembersSize(xs) + MembersSize(ys)
  {
    xs == []
    || (xs[0].key == ys[0].key && Equal(same, at + [k], xs[0].value, ys[0].value)
        && MembersEqual(same, at, k + 1, xs[1..], ys[1..]))
  }

  /** Json::operator<, for values at the path `at`. */
  predicate Less(same: Sharing, at: seq<nat>, a: Json, b: Json)
    decreases Size(a) + Size(b), 0
  {
    if same(at, a, b) then false
    else if TypeRank(a) != TypeRank(b) then TypeRank(a) < TypeRank(b)
    else match a
      case Nul => false
      case Num(n) => DoubleLess(n, b.n)
      case Bool(v) => !v && b.b
      case Str(s) => LexLess(s, b.s)
      case Arr(xs) => ItemsLess(same, at, 0, xs, b.items)
      case Obj(ms) => MembersLess(same, at, 0, ms, b.members)
  }

  /** operator< of std::vector: std::lexicographical_compare, by < alone. */
  predicate ItemsLess(same: Sharing, at: seq<nat>, k: nat, xs: seq<Json>, ys: seq<Json>)
    decreases ItemsSize(xs) + ItemsSize(ys)
  {
    if ys == [] then false
    else if xs == [] then true
    else if Less(same, at + [k], xs[0], ys[0]) then true
    else if Less(same, at + [k], ys[0], xs[0]) then false
    else ItemsLess(same, at, k + 1, xs[1..], ys[1..])
  }

  /** operator< of std::pair. */
  predicate PairLess(same: Sharing, at: seq<nat>, x: Member, y: Member)
    decreases Size(x.value) + Size(y.value), 1
  {
    LexLess(x.key, y.key) || (!LexLess(y.key, x.key) && Less(same, at, x.value, y.value))
  }

  /** operator< of std::map: the same comparison over pairs in key order. */
  predicate MembersLess(same: Sharing, at: seq<nat>, k: nat, xs: seq<Member>, ys: seq<Member>)
    decreases MembersSize(xs) + MembersSize(ys)
  {
    if ys == [] then false
    else if xs == [] then true
    else if PairLess(same, at + [k], xs[0], ys[0]) then true
    else if PairLess(same, at + [k], ys[0], xs[0]) then false
    else MembersLess(same, at, k + 1, xs[1..], ys[1..])
  }

  /** The pointer shortcut never changes an answer of <, with or without NaN, whatever is shared where. */
  lemma {:induction false} LessIgnoresSharing(same: Sharing, at: seq<nat>, a: Json, b: Json)
    requires Sound(same)
    ensures Less(same, at, a, b) == Below(a, b)
    decreases Size(a) + Size(b), 1
  {
    if same(at, a, b) {
      BelowIrreflexive(a);
    } else if a.Arr? && b.Arr? {
      ItemsLessIgnoresSharing(same, at, 0, a.items, b.items);
    } else if a.Obj? && b.Obj? {
      MembersLessIgnoresSharing(same, at, 0, a.members, b.members);
    }
  }

  lemma {:induction false} ItemsLessIgnoresSharing(same: Sharing, at: seq<nat>, k: nat, xs: seq<Json>, ys: seq<Json>)
    requires Sound(same)
    ensures ItemsLess(same, at, k, xs, ys) == ItemsBelow(xs, ys)
    decreases ItemsSize(xs) + ItemsSize(ys)
  {
    if xs != [] && ys != [] {
      LessIgnoresSharing(same, at + [k], xs[0], ys[0]);
      LessIgnoresSharing(same, at + [k], ys[0], xs[0]);
      ItemsLessIgnoresSharing(same, at, k + 1, xs[1..], ys[1..]);
    }
  }

  lemma {:induction false} MembersLessIgnoresSharing(same: Sharing, at: seq<nat>, k: nat,
        xs: seq<Member>, ys: seq<Member>)
    requires Sound(same)
    ensures MembersLess(same, at, k, xs, ys) == MembersBelow(xs, ys)
    decreases MembersSize(xs) + MembersSize(ys)
  {
    if xs != [] && ys != [] {
      LessIgnoresSharing(same, at + [k], xs[0].value, ys[0].value);
      LessIgnoresSharing(same, at + [k], ys[0].value, xs[0].value);
      MembersLessIgnoresSharing(same, at, k + 1, xs[1..], ys[1..]);
    }
  }

  /**
   Numbers are ordered by value between the two infinities, and NaN is neither below nor above anything;
   false is below true; strings are ordered at the first byte that differs, as unsigned values.
   */
  lemma ScalarOrder(same: Sharing, at: seq<nat>, a: Json, b: Json)
    requires Sound(same)
    ensures a.Nul? && b.Nul? ==> !Less(same, at, a, b)
    ensures a.Num? && b.Num? ==>
              (Less(same, at, a, b) <==>
                match (a.n, b.n)
                case (Finite(x), Finite(y)) => x < y
                case (NegInf, Finite(_)) => true
                case (NegInf, PosInf) => true
                case (Finite(_), PosInf) => true
                case _ => false)
    ensures a.Bool? && b.Bool? ==> (Less(same, at, a, b) <==> a == Bool(false) && b == Bool(true))
    ensures a.Str? && b.Str? ==> (Less(same, at, a, b) <==> exists p: nat :: BytesBelowAt(a.s, b.s, p))
  {
    hide Less, LexLess;
    LessIgnoresSharing(same, at, a, b);
    if a.Str? && b.Str? { LexLessIsFirstDifference(a.s, b.s); }
  }

  /** Of different types, null comes first, then numbers, booleans, strings, arrays and objects. */
  lemma TypeOrder(same: Sharing, at: seq<nat>, a: Json, b: Json)
    requires Sound(same)
    ensures a.Nul? && !b.Nul? ==> Less(same, at, a, b) && !Less(same, at, b, a)
    ensures a.Num? && (b.Bool? || b.Str? || b.Arr? || b.Obj?) ==> Less(same, at, a, b) && !Less(same, at, b, a)
    ensures a.Bool? && (b.Str? || b.Arr? || b.Obj?) ==> Less(same, at, a, b) && !Less(same, at, b, a)
    ensures a.Str? && (b.Arr? || b.Obj?) ==> Less(same, at, a, b) && !Less(same, at, b, a)
    ensures a.Arr? && b.Obj? ==> Less(same, at, a, b) && !Less(same, at, b, a)
  {
    hide Less, LexLess, ItemsBelow, MembersBelow;
    LessIgnoresSharing(same, at, a, b);
    LessIgnoresSharing(same, at, b, a);
  }

  /** Every NaN in the value lies at or below a place where the two sides share a pointer. */
  predicate NaNsShared(same: Sharing, at: seq<nat>, a: Json)
    decreases a, 1
  {
    same(at, a, a) ||
    match a
    case Num(n) => !n.NaN?
    case Arr(items) => ItemNaNsShared(same, at, 0, items)
    case Obj(ms) => MemberNaNsShared(same, at, 0, ms)
    case _ => true
  }

  predicate ItemNaNsShared(same: Sharing, at: seq<nat>, k: nat, xs: seq<Json>)
    decreases xs, 0
  {
    xs == [] || (NaNsShared(same, at + [k], xs[0]) && ItemNaNsShared(same, at, k + 1, xs[1..]))
  }

  predicate MemberNaNsShared(same: Sharing, at: seq<nat>, k: nat, xs: seq<Member>)
    decreases xs, 0
  {
    xs == [] || (NaNsShared(same, at + [k], xs[0].value) && MemberNaNsShared(same, at, k + 1, xs[1..]))
  }

  /** == holds exactly of equal values all of whose NaNs are shared; so the shortcut decides for NaN only. */
  lemma {:induction false} EqualExactly(same: Sharing, at: seq<nat>, a: Json, b: Json)
    requires Sound(same)
    ensures Equal(same, at, a, b) <==> a == b && NaNsShared(same, at, a)
    decreases Size(a) + Size(b), 1
  {
    if same(at, a, b) {
    } else if a.Arr? && b.Arr? && |a.items| == |b.items| {
      ItemsEqualExactly(same, at, 0, a.items, b.items);
    } else if a.Obj? && b.Obj? && |a.members| == |b.members| {
      MembersEqualExactly(same, at, 0, a.members, b.members);
    }
  }

  lemma {:induction false} ItemsEqualExactly(same: Sharing, at: seq<nat>, k: nat, xs: seq<Json>, ys: seq<Json>)
    requires Sound(same) && |xs| == |ys|
    ensures ItemsEqual(same, at, k, xs, ys) <==> xs == ys && ItemNaNsShared(same, at, k, xs)
    decreases ItemsSize(xs) + ItemsSize(ys)
  {
    if xs != [] {
      EqualExactly(same, at + [k], xs[0], ys[0]);
      ItemsEqualExactly(same, at, k + 1, xs[1..], ys[1..]);
      assert xs == [xs[0]] + xs[1..] && ys == [ys[0]] + ys[1..];
    }
  }

  lemma {:induction false} MembersEqualExactly(same: Sharing, at: seq<nat>, k: nat, xs: seq<Member>, ys: seq<Member>)
    requires Sound(same) && |xs| == |ys|
    ensures MembersEqual(same, at, k, xs, ys) <==> xs == ys && MemberNaNsShared(same, at, k, xs)
    decreases MembersSize(xs) + MembersSize(ys)
  {
    if xs != [] {
      EqualExactly(same, at + [k], xs[0].value, ys[0].value);
      MembersEqualExactly(same, at, k + 1, xs[1..], ys[1..]);
      assert xs == [xs[0]] + xs[1..] && ys == [ys[0]] + ys[1..];
    }
  }

  /** Without NaN there is nothing to share; without sharing there may be no NaN. */
  lemma {:induction false} NoNaNsToShare(same: Sharing, at: seq<nat>, a: Json)
    ensures NoNaN(a) ==> NaNsShared(same, at, a)
    ensures (forall p, x, y :: !same(p, x, y)) && NaNsShared(same, at, a) ==> NoNaN(a)
    decreases a, 1
  {
    match a
    case Arr(items) => NoItemNaNsToShare(same, at, 0, items);
    case Obj(ms) => NoMemberNaNsToShare(same, at, 0, ms);
    case _ =>
  }

  lemma {:induction false} NoItemNaNsToShare(same: Sharing, at: seq<nat>, k: nat, xs: seq<Json>)
    ensures (forall j | 0 <= j < |xs| :: NoNaN(xs[j])) ==> ItemNaNsShared(same, at, k, xs)
    ensures (forall p, x, y :: !same(p, x, y)) && ItemNaNsShared(same, at, k, xs)
        ==> forall j | 0 <= j < |xs| :: NoNaN(xs[j])
    decreases xs, 0
  {
    if xs != [] {
      NoNaNsToShare(same, at + [k], xs[0]);
      NoItemNaNsToShare(same, at, k + 1, xs[1..]);
      assert xs == [xs[0]] + xs[1..];
    }
  }

  lemma {:induction false} NoMemberNaNsToShare(same: Sharing, at: seq<nat>, k: nat, xs: seq<Member>)
    ensures (forall j | 0 <= j < |xs| :: NoNaN(xs[j].value)) ==> MemberNaNsShared(same, at, k, xs)
    ensures (forall p, x, y :: !same(p, x, y)) && MemberNaNsShared(same, at, k, xs)
        ==> forall j | 0 <= j < |xs| :: NoNaN(xs[j].value)
    decreases xs, 0
  {
    if xs != [] {
      NoNaNsToShare(same, at + [k], xs[0].value);
      NoMemberNaNsToShare(same, at, k + 1, xs[1..]);
      assert xs == [xs[0]] + xs[1..];
    }
  }

  /** Without NaN, == is equality of values, whatever is shared where. */
  lemma EqualIsEquality(same: Sharing, a: Json, b: Json)
    requires Sound(same) && NoNaN(a)
    ensures Equal(same, [], a, b) <==> a == b
  {
    EqualExactly(same, [], a, b);
    NoNaNsToShare(same, [], a);
  }

  /** A value compares equal to a copy that shares nothing with it exactly when no NaN occurs in it. */
  lemma CopyIsEqualIffNoNaN(same: Sharing, a: Json)
    requires forall p, x, y :: !same(p, x, y)
    ensures Equal(same, [], a, a) <==> NoNaN(a)
  {
    EqualExactly(same, [], a, a);
    NoNaNsToShare(same, [], a);
  }

  /** Without NaN exactly one of a == b, a < b and b < a holds, whatever each of the comparisons finds shared. */
  lemma ExactlyOneHolds(equal: Sharing, less: Sharing, greater: Sharing, a: Json, b: Json)
    requires Sound(equal) && Sound(less) && Sound(greater) && NoNaN(a) && NoNaN(b)
    ensures Equal(equal, [], a, b) ==> !Less(less, [], a, b) && !Less(greater, [], b, a)
    ensures !Equal(equal, [], a, b) ==> Less(less, [], a, b) != Less(greater, [], b, a)
  {
    EqualIsEquality(equal, a, b);
    LessIgnoresSharing(less, [], a, b);
    LessIgnoresSharing(greater, [], b, a);
    Trichotomy(a, b);
  }

  /** Without NaN < is transitive, whatever each of the comparisons finds shared. */
  lemma LessTransitive(ab: Sharing, bc: Sharing, ac: Sharing, a: Json, b: Json, c: Json)
    requires Sound(ab) && Sound(bc) && Sound(ac) && NoNaN(a) && NoNaN(b) && NoNaN(c)
    requires Less(ab, [], a, b) && Less(bc, [], b, c)
    ensures Less(ac, [], a, c)
  {
    LessIgnoresSharing(ab, [], a, b);
    LessIgnoresSharing(bc, [], b, c);
    LessIgnoresSharing(ac, [], a, c);
    BelowTransitive(a, b, c);
  }
}
