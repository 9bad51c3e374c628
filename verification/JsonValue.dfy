/** JSON values, and the ordered map that holds the members of an object. */
module JsonValue {
  import opened Bytes

  /** A double. The two zeros are one value here, as they are for == and <. */
  datatype Double = Finite(r: real) | PosInf | NegInf | NaN

  /** An object lists its members in the iteration order of std::map: by key, each key once. */
  datatype Json =
    | Nul
    | Num(n: Double)
    | Bool(b: bool)
    | Str(s: bytes)
    | Arr(items: seq<Json>)
    | Obj(members: seq<Member>)

  datatype Member = Member(key: bytes, value: Json)

  predicate SortedKeys(ms: seq<Member>) {
    forall i, j | 0 <= i < j < |ms| :: LexLess(ms[i].key, ms[j].key)
  }

  /** Every object in the value keeps the std::map order. */
  predicate Ordered(j: Json) {
    match j
    case Arr(items) => forall k | 0 <= k < |items| :: Ordered(items[k])
    case Obj(ms) => SortedKeys(ms) && forall k | 0 <= k < |ms| :: Ordered(ms[k].value)
    case _ => true
  }

  /** `data[key] = value` of std::map. */
  function Assign(ms: seq<Member>, key: bytes, value: Json): seq<Member> {
    if ms == [] then [Member(key, value)]
    else if ms[0].key == key then [Member(key, value)] + ms[1..]
    else if LexLess(key, ms[0].key) then [Member(key, value)] + ms
    else [ms[0]] + Assign(ms[1..], key, value)
  }

  function Find(ms: seq<Member>, key: bytes): Option<Json> {
    if ms == [] then None
    else if ms[0].key == key then Some(ms[0].value)
    else Find(ms[1..], key)
  }

  /** The map after assigning the pairs one after the other. */
  function MapOf(ps: seq<Member>): seq<Member> {
    if ps == [] then []
    else
      var last := ps[|ps| - 1];
      Assign(MapOf(ps[..|ps| - 1]), last.key, last.value)
  }

  /** The value of the last pair with the key. */
  function LastValue(ps: seq<Member>, key: bytes): Option<Json> {
    if ps == [] then None
    else
      var last := ps[|ps| - 1];
      if last.key == key then Some(last.value) else LastValue(ps[..|ps| - 1], key)
  }

  lemma {:induction false} AssignIsUpdate(ms: seq<Member>, key: bytes, value: Json, k: bytes)
    ensures Find(Assign(ms, key, value), k) == if k == key then Some(value) else Find(ms, k)
  {
    if ms != [] && ms[0].key != key && !LexLess(key, ms[0].key) {
      AssignIsUpdate(ms[1..], key, value, k);
    }
  }

  lemma {:induction false} AssignKeys(ms: seq<Member>, key: bytes, value: Json)
    ensures forall m | m in Assign(ms, key, value) :: m == Member(key, value) || m in ms
  {
    if ms != [] && ms[0].key != key && !LexLess(key, ms[0].key) {
      AssignKeys(ms[1..], key, value);
    }
  }

  lemma {:induction false} AssignSorted(ms: seq<Member>, key: bytes, value: Json)
    requires SortedKeys(ms)
    ensures SortedKeys(Assign(ms, key, value))
  {
    if ms == [] || ms[0].key == key {
    } else if LexLess(key, ms[0].key) {
      forall j | 0 <= j < |ms| ensures LexLess(key, ms[j].key) {
        if j > 0 { LexTransitive(key, ms[0].key, ms[j].key); }
      }
    } else {
      var rest := Assign(ms[1..], key, value);
      AssignSorted(ms[1..], key, value);
      AssignKeys(ms[1..], key, value);
      LexTrichotomy(ms[0].key, key);
      forall j | 0 <= j < |rest| ensures LexLess(ms[0].key, rest[j].key) {
        assert rest[j] in rest;
      }
    }
  }

  /** Assigning pairs keeps the map order, and for every key the last pair wins. */
  lemma {:induction false} MapOfCorrect(ps: seq<Member>, k: bytes)
    ensures SortedKeys(MapOf(ps))
    ensures Find(MapOf(ps), k) == LastValue(ps, k)
    ensures forall m | m in MapOf(ps) :: m in ps
  {
    if ps != [] {
      var last := ps[|ps| - 1];
      var init := ps[..|ps| - 1];
      MapOfCorrect(init, k);
      AssignSorted(MapOf(init), last.key, last.value);
      AssignIsUpdate(MapOf(init), last.key, last.value, k);
      AssignKeys(MapOf(init), last.key, last.value);
    }
  }

  lemma {:induction false} AssignAtEnd(ms: seq<Member>, key: bytes, value: Json)
    requires forall k | 0 <= k < |ms| :: LexLess(ms[k].key, key)
    ensures Assign(ms, key, value) == ms + [Member(key, value)]
  {
    if ms != [] {
      LexTrichotomy(ms[0].key, key);
      AssignAtEnd(ms[1..], key, value);
      assert ms + [Member(key, value)] == [ms[0]] + (ms[1..] + [Member(key, value)]);
    }
  }

  /** Pairs that are in map order already are the map. */
  lemma {:induction false} MapOfSorted(ps: seq<Member>)
    requires SortedKeys(ps)
    ensures MapOf(ps) == ps
  {
    if ps != [] {
      var init := ps[..|ps| - 1];
      var last := ps[|ps| - 1];
      assert ps == init + [last];
      MapOfSorted(init);
      AssignAtEnd(init, last.key, last.value);
    }
  }
}
