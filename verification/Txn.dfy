/** Transactions of the key-value store: their JSON body, and how it is read back. */
module Txn {
  import opened Bytes
  import opened JsonValue
  import opened JsonGrammar
  import opened JsonSyntax
  import opened JsonPrinter
  import opened JsonRoundTrip
  import opened Base64
  import opened Doubles
  import Base64Codec

  datatype TxnOperation =
    | Set(key: bytes, value: bytes, flags: nat)
    | CompareSet(key: bytes, expectedIndex: nat, value: bytes, flags: nat)
    | Get(key: bytes)
    | GetAll(keyPrefix: bytes)
    | CheckIndex(key: bytes, expectedIndex: nat)
    | CheckNotExists(key: bytes)
    | Erase(key: bytes)
    | EraseAll(keyPrefix: bytes)
    | CompareErase(key: bytes, expectedIndex: nat)
    | Lock(key: bytes, value: bytes, session: bytes, flags: nat)
    | Unlock(key: bytes, value: bytes, session: bytes, flags: nat)
    | CheckSession(key: bytes, session: bytes)

  /** The verbs that name the operations in a request. */
  datatype Verb =
    | VSet
    | VCas
    | VGet
    | VGetTree
    | VCheckIndex
    | VCheckNotExists
    | VDelete
    | VDeleteTree
    | VDeleteCas
    | VLock
    | VUnlock
    | VCheckSession

  function VerbText(v: Verb): bytes {
    match v
    case VSet => Ascii("set")
    case VCas => Ascii("cas")
    case VGet => Ascii("get")
    case VGetTree => Ascii("get-tree")
    case VCheckIndex => Ascii("check-index")
    case VCheckNotExists => Ascii("check-not-exists")
    case VDelete => Ascii("delete")
    case VDeleteTree => Ascii("delete-tree")
    case VDeleteCas => Ascii("delete-cas")
    case VLock => Ascii("lock")
    case VUnlock => Ascii("unlock")
    case VCheckSession => Ascii("check-session")
  }

  /** What an operation says: a verb, a key and some of four optional fields. */
  datatype Entry = Entry(
    verb: Verb,
    key: bytes,
    value: Option<bytes>,
    index: Option<nat>,
    flags: Option<nat>,
    session: Option<bytes>)

  /** The verb of each operation, and its fields. */
  function EntryOf(op: TxnOperation): Entry {
    match op
    case Set(k, v, f) => Entry(VSet, k, Some(v), None, Some(f), None)
    case CompareSet(k, i, v, f) => Entry(VCas, k, Some(v), Some(i), Some(f), None)
    case Get(k) => Entry(VGet, k, None, None, None, None)
    case GetAll(k) => Entry(VGetTree, k, None, None, None, None)
    case CheckIndex(k, i) => Entry(VCheckIndex, k, None, Some(i), None, None)
    case CheckNotExists(k) => Entry(VCheckNotExists, k, None, None, None, None)
    case Erase(k) => Entry(VDelete, k, None, None, None, None)
    case EraseAll(k) => Entry(VDeleteTree, k, None, None, None, None)
    case CompareErase(k, i) => Entry(VDeleteCas, k, None, Some(i), None, None)
    case Lock(k, v, s, f) => Entry(VLock, k, Some(v), None, Some(f), Some(s))
    case Unlock(k, v, s, f) => Entry(VUnlock, k, Some(v), None, Some(f), Some(s))
    case CheckSession(k, s) => Entry(VCheckSession, k, None, None, None, Some(s))
  }

  /** The entry with its index and flags as the doubles they are sent as. */
  function Rounded(e: Entry): Entry {
    e.(index := RoundedNat(e.index), flags := RoundedNat(e.flags))
  }

  function RoundedNat(n: Option<nat>): Option<nat> {
    if n.Some? then Some(ToDouble(n.value)) else None
  }

  /** Index and flags are of type uint64_t. */
  predicate Fits(e: Entry) {
    (e.index.Some? ==> e.index.value < TWO_64) && (e.flags.Some? ==> e.flags.value < TWO_64)
  }

  /** Index and flags have at most 53 significant bits. */
  ghost predicate Exact(e: Entry) {
    (e.index.Some? ==> IsDouble(e.index.value as real)) && (e.flags.Some? ==> IsDouble(e.flags.value as real))
  }

  /** The operation with its index and flags as doubles. */
  function RoundedOp(op: TxnOperation): TxnOperation {
    match op
    case Set(k, v, f) => Set(k, v, ToDouble(f))
    case CompareSet(k, i, v, f) => CompareSet(k, ToDouble(i), v, ToDouble(f))
    case CheckIndex(k, i) => CheckIndex(k, ToDouble(i))
    case CompareErase(k, i) => CompareErase(k, ToDouble(i))
    case Lock(k, v, s, f) => Lock(k, v, s, ToDouble(f))
    case Unlock(k, v, s, f) => Unlock(k, v, s, ToDouble(f))
    case _ => op
  }

  function RoundedOps(ops: seq<TxnOperation>): seq<TxnOperation> {
    if ops == [] then [] else [RoundedOp(ops[0])] + RoundedOps(ops[1..])
  }

  // ---- The body ----

  const VERB: bytes := Ascii("Verb")
  const KEY: bytes := Ascii("Key")
  const VALUE: bytes := Ascii("Value")
  const INDEX: bytes := Ascii("Index")
  const FLAGS: bytes := Ascii("Flags")
  const SESSION: bytes := Ascii("Session")
  const KV: bytes := Ascii("KV")

  function NumberOf(n: nat): Json {
    Num(RoundToDouble(n as real))
  }

  function Optional(key: bytes, v: Option<Json>): seq<Member> {
    if v.Some? then [Member(key, v.value)] else []
  }

  function MapNat(n: Option<nat>): Option<Json> {
    if n.Some? then Some(NumberOf(n.value)) else None
  }

  function MapText(s: Option<bytes>): Option<Json> {
    if s.Some? then Some(Str(s.value)) else None
  }

  /** The value travels in base64. */
  function MapValue(s: Option<bytes>): Option<Json> {
    if s.Some? then Some(Str(Rfc4648(s.value))) else None
  }

  /** The fields of an operation; those it does not have are left out. */
  function EntryFields(e: Entry): seq<Member> {
    [Member(VERB, Str(VerbText(e.verb))), Member(KEY, Str(e.key))]
    + Optional(VALUE, MapValue(e.value)) + Optional(INDEX, MapNat(e.index))
    + Optional(FLAGS, MapNat(e.flags)) + Optional(SESSION, MapText(e.session))
  }

  function EntryJson(e: Entry): Json {
    Obj([Member(KV, Obj(MapOf(EntryFields(e))))])
  }

  function OpsJson(ops: seq<TxnOperation>): seq<Json> {
    if ops == [] then [] else [EntryJson(EntryOf(ops[0]))] + OpsJson(ops[1..])
  }

  /** The body of a transaction request. */
  function TxnBody(ops: seq<TxnOperation>): bytes {
    DumpText(Arr(OpsJson(ops)))
  }

  // ---- Reading a body ----

  function ReadText(j: Option<Json>): Option<bytes> {
    if j.Some? && j.value.Str? then Some(j.value.s) else None
  }

  function ReadValue(j: Option<Json>): Option<bytes> {
    if j.Some? && j.value.Str? then Some(DecodeText(j.value.s)) else None
  }

  function ReadNat(j: Option<Json>): Option<nat> {
    if j.Some? && j.value.Num? && j.value.n.Finite? && j.value.n.r >= 0.0 then Some(j.value.n.r.Floor) else None
  }

  /** The verb that Consul knows by this name, if there is one. */
  function VerbNamed(text: bytes): Option<Verb> {
    if text == Ascii("set") then Some(VSet)
    else if text == Ascii("cas") then Some(VCas)
    else if text == Ascii("get") then Some(VGet)
    else if text == Ascii("get-tree") then Some(VGetTree)
    else if text == Ascii("check-index") then Some(VCheckIndex)
    else if text == Ascii("check-not-exists") then Some(VCheckNotExists)
    else if text == Ascii("delete") then Some(VDelete)
    else if text == Ascii("delete-tree") then Some(VDeleteTree)
    else if text == Ascii("delete-cas") then Some(VDeleteCas)
    else if text == Ascii("lock") then Some(VLock)
    else if text == Ascii("unlock") then Some(VUnlock)
    else if text == Ascii("check-session") then Some(VCheckSession)
    else None
  }

  function ReadVerb(j: Option<Json>): Option<Verb> {
    match ReadText(j)
    case Some(text) => VerbNamed(text)
    case None => None
  }

  /** Reads the fields by the names Consul gives them, in whatever order they come. */
  function ReadEntry(j: Json): Option<Entry> {
    if !j.Obj? then None
    else
      match Find(j.members, Ascii("KV"))
      case Some(Obj(ms)) =>
        var verb, key := ReadVerb(Find(ms, Ascii("Verb"))), ReadText(Find(ms, Ascii("Key")));
        if verb == None || key == None then None
        else
          Some(Entry(verb.value, key.value, ReadValue(Find(ms, Ascii("Value"))), ReadNat(Find(ms, Ascii("Index"))),
                     ReadNat(Find(ms, Ascii("Flags"))), ReadText(Find(ms, Ascii("Session")))))
      case _ => None
  }

  /** Dispatches on the verb; the fields it needs must be there. */
  function ReadOp(e: Entry): Option<TxnOperation> {
    match (e.verb, e.value, e.index, e.flags, e.session)
    case (VSet, Some(v), _, Some(f), _) => Some(Set(e.key, v, f))
    case (VCas, Some(v), Some(i), Some(f), _) => Some(CompareSet(e.key, i, v, f))
    case (VGet, _, _, _, _) => Some(Get(e.key))
    case (VGetTree, _, _, _, _) => Some(GetAll(e.key))
    case (VCheckIndex, _, Some(i), _, _) => Some(CheckIndex(e.key, i))
    case (VCheckNotExists, _, _, _, _) => Some(CheckNotExists(e.key))
    case (VDelete, _, _, _, _) => Some(Erase(e.key))
    case (VDeleteTree, _, _, _, _) => Some(EraseAll(e.key))
    case (VDeleteCas, _, Some(i), _, _) => Some(CompareErase(e.key, i))
    case (VLock, Some(v), _, Some(f), Some(s)) => Some(Lock(e.key, v, s, f))
    case (VUnlock, Some(v), _, Some(f), Some(s)) => Some(Unlock(e.key, v, s, f))
    case (VCheckSession, _, _, _, Some(s)) => Some(CheckSession(e.key, s))
    case _ => None
  }

  function ReadOps(js: seq<Json>): Option<seq<TxnOperation>> {
    if js == [] then Some([])
    else
      match ReadEntry(js[0])
      case None => None
      case Some(e) =>
        match ReadOp(e)
        case None => None
        case Some(op) =>
          match ReadOps(js[1..])
          case None => None
          case Some(ops) => Some([op] + ops)
  }

  function ReadBody(body: bytes): Option<seq<TxnOperation>> {
    match ParseDocument(Standard, body)
    case Fail(_) => None
    case Ok(c, _) =>
      match JsonGrammar.Value(c)
      case Arr(items) => ReadOps(items)
      case _ => None
  }

  // ---- Round trip ----

  lemma VerbsDiffer(v: Verb, w: Verb)
    ensures VerbText(v) == VerbText(w) <==> v == w
  {
    assert "set"[0] == 's' && "cas"[0] == 'c' && "get"[0] == 'g';
    assert "check-index"[0] == 'c' && "delete-tree"[0] == 'd';
    assert "delete"[0] == 'd' && "unlock"[0] == 'u';
  }

  lemma VerbTexts()
    ensures VerbText(VSet) == Ascii("set") && VerbText(VCas) == Ascii("cas")
    ensures VerbText(VGet) == Ascii("get") && VerbText(VGetTree) == Ascii("get-tree")
    ensures VerbText(VCheckIndex) == Ascii("check-index") && VerbText(VCheckNotExists) == Ascii("check-not-exists")
    ensures VerbText(VDelete) == Ascii("delete") && VerbText(VDeleteTree) == Ascii("delete-tree")
    ensures VerbText(VDeleteCas) == Ascii("delete-cas") && VerbText(VLock) == Ascii("lock")
    ensures VerbText(VUnlock) == Ascii("unlock") && VerbText(VCheckSession) == Ascii("check-session")
  {
  }

  /** A verb is sent under the name by which Consul knows it, and nothing else has that name. */
  lemma VerbIsKnown(v: Verb, text: bytes)
    ensures VerbNamed(text) == Some(v) <==> text == VerbText(v)
  {
    hide VerbText, Ascii;
    VerbTexts();
    if VerbNamed(text).Some? { VerbsDiffer(v, VerbNamed(text).value); }
  }

  /** The verbs tell the twelve kinds of operations apart. */
  lemma OpRoundTrip(op: TxnOperation)
    requires Fits(EntryOf(op))
    ensures ReadOp(Rounded(EntryOf(op))) == Some(RoundedOp(op))
    ensures RoundedOp(op) == op <==> Exact(EntryOf(op))
  {
    hide ToDouble, IsDouble, RoundToDouble;
    var e := EntryOf(op);
    if e.index.Some? { ToDoubleIs(e.index.value); }
    if e.flags.Some? { ToDoubleIs(e.flags.value); }
  }

  lemma {:induction false} LastOfOptional(ps: seq<Member>, key: bytes, v: Option<Json>, k: bytes)
    ensures LastValue(ps + Optional(key, v), k) == if k == key && v.Some? then v else LastValue(ps, k)
  {
    var all := ps + Optional(key, v);
    if v.Some? {
      assert all[..|all| - 1] == ps;
    } else {
      assert all == ps;
    }
  }

  lemma FieldNames()
    ensures VERB != KEY && VERB != VALUE && VERB != INDEX && VERB != FLAGS && VERB != SESSION
    ensures KEY != VALUE && KEY != INDEX && KEY != FLAGS && KEY != SESSION
    ensures VALUE != INDEX && VALUE != FLAGS && VALUE != SESSION
    ensures INDEX != FLAGS && INDEX != SESSION && FLAGS != SESSION
  {
    assert "Value"[0] == 'V' && "Index"[0] == 'I' && "Flags"[0] == 'F';
    assert VALUE[0] != INDEX[0] && VALUE[0] != FLAGS[0] && INDEX[0] != FLAGS[0];
  }

  lemma FieldOf(e: Entry, k: bytes)
    ensures Find(MapOf(EntryFields(e)), k)
         == if k == SESSION && e.session.Some? then MapText(e.session)
            else if k == FLAGS && e.flags.Some? then MapNat(e.flags)
            else if k == INDEX && e.index.Some? then MapNat(e.index)
            else if k == VALUE && e.value.Some? then MapValue(e.value)
            else if k == KEY then Some(Str(e.key))
            else if k == VERB then Some(Str(VerbText(e.verb)))
            else None
  {
    hide LastValue, MapOf, Find, Optional, Rfc4648, VerbText;
    var p0 := [Member(VERB, Str(VerbText(e.verb))), Member(KEY, Str(e.key))];
    var p1 := p0 + Optional(VALUE, MapValue(e.value));
    var p2 := p1 + Optional(INDEX, MapNat(e.index));
    var p3 := p2 + Optional(FLAGS, MapNat(e.flags));
    MapOfCorrect(EntryFields(e), k);
    LastOfOptional(p3, SESSION, MapText(e.session), k);
    LastOfOptional(p2, FLAGS, MapNat(e.flags), k);
    LastOfOptional(p1, INDEX, MapNat(e.index), k);
    LastOfOptional(p0, VALUE, MapValue(e.value), k);
    LastOfTwo(VERB, Str(VerbText(e.verb)), KEY, Str(e.key), k);
  }

  lemma LastOfTwo(a: bytes, v: Json, b: bytes, w: Json, k: bytes)
    ensures LastValue([Member(a, v), Member(b, w)], k) == if k == b then Some(w) else if k == a then Some(v) else None
  {
    var ps := [Member(a, v), Member(b, w)];
    assert ps[..1] == [Member(a, v)] && ps[..1][..0] == [];
    assert LastValue(ps[..1][..0], k) == None;
    assert LastValue(ps[..1], k) == if k == a then Some(v) else None;
  }

  lemma EntryRoundTrip(e: Entry)
    requires Fits(e)
    ensures ReadEntry(EntryJson(e)) == Some(Rounded(e))
  {
    hide MapOf, EntryFields, Rfc4648, DecodeText, VerbText, VerbNamed, ToDouble, RoundToDouble, IsDouble;
    VerbIsKnown(e.verb, VerbText(e.verb));
    FieldNames();
    FieldOf(e, VERB);
    FieldOf(e, KEY);
    FieldOf(e, VALUE);
    FieldOf(e, INDEX);
    FieldOf(e, FLAGS);
    FieldOf(e, SESSION);
    if e.value.Some? { DecodeUndoesEncode(e.value.value); }
    if e.index.Some? { ToDoubleIs(e.index.value); }
    if e.flags.Some? { ToDoubleIs(e.flags.value); }
  }

  lemma {:induction false} OpsRoundTrip(ops: seq<TxnOperation>)
    requires forall k | 0 <= k < |ops| :: Fits(EntryOf(ops[k]))
    ensures ReadOps(OpsJson(ops)) == Some(RoundedOps(ops))
    ensures RoundedOps(ops) == ops <==> forall k | 0 <= k < |ops| :: Exact(EntryOf(ops[k]))
  {
    hide ReadEntry, EntryJson, ReadOp, EntryOf, RoundedOp, Rounded, Exact, Fits;
    if ops != [] {
      EntryRoundTrip(EntryOf(ops[0]));
      OpRoundTrip(ops[0]);
      OpsRoundTrip(ops[1..]);
      assert ops == [ops[0]] + ops[1..];
      assert OpsJson(ops)[1..] == OpsJson(ops[1..]) && RoundedOps(ops)[1..] == RoundedOps(ops[1..]);
    }
  }

  /** The values that print and parse back unchanged. */
  ghost predicate Faithful(j: Json) {
    HoldsDoubles(j) && Ordered(j) && AllFinite(j)
  }

  lemma FieldsAreScalars(e: Entry)
    requires Fits(e)
    ensures forall m | m in EntryFields(e) :: Faithful(m.value) && Nesting(m.value) == 0
  {
    hide Rfc4648, VerbText, ToDouble, IsDouble, RoundToDouble;
    if e.index.Some? { ToDoubleIs(e.index.value); }
    if e.flags.Some? { ToDoubleIs(e.flags.value); }
  }

  lemma {:induction false} FlatNesting(ms: seq<Member>)
    requires forall m | m in ms :: Nesting(m.value) == 0
    ensures MembersNesting(ms) == 0
  {
    if ms != [] { FlatNesting(ms[1..]); }
  }

  lemma EntryIsFaithful(e: Entry)
    requires Fits(e)
    ensures Faithful(EntryJson(e)) && Nesting(EntryJson(e)) <= 2
  {
    hide MapOf, EntryFields, Find, LastValue;
    var ms := MapOf(EntryFields(e));
    MapOfCorrect(EntryFields(e), KV);
    FieldsAreScalars(e);
    assert forall k | 0 <= k < |ms| :: ms[k] in ms;
    FlatNesting(ms);
    var inner := Obj(ms);
    assert Faithful(inner) && Nesting(inner) <= 1;
    assert [Member(KV, inner)][1..] == [];
    assert MembersNesting([Member(KV, inner)]) == Nesting(inner);
  }

  lemma {:induction false} BodyIsFaithful(ops: seq<TxnOperation>)
    requires forall k | 0 <= k < |ops| :: Fits(EntryOf(ops[k]))
    ensures var js := OpsJson(ops); (forall k | 0 <= k < |js| :: Faithful(js[k])) && ItemsNesting(js) <= 2
  {
    hide EntryJson, EntryOf, Faithful;
    if ops != [] {
      EntryIsFaithful(EntryOf(ops[0]));
      BodyIsFaithful(ops[1..]);
      assert OpsJson(ops)[1..] == OpsJson(ops[1..]);
    }
  }

  lemma WholeBodyIsFaithful(ops: seq<TxnOperation>)
    requires forall k | 0 <= k < |ops| :: Fits(EntryOf(ops[k]))
    ensures Faithful(Arr(OpsJson(ops))) && Nesting(Arr(OpsJson(ops))) <= 3
  {
    hide OpsJson, EntryOf, Fits;
    BodyIsFaithful(ops);
  }

  /**
   Parsing the body, dispatching on the verbs and decoding the values gives the operations in order,
   with their indexes and flags as doubles; so it gives the operations themselves exactly when
   every index and every flag has at most 53 significant bits. All numbers in the body are doubles.
   */
  lemma TxnBodyRoundTrip(ops: seq<TxnOperation>)
    requires forall k | 0 <= k < |ops| :: Fits(EntryOf(ops[k]))
    ensures ReadBody(TxnBody(ops)) == Some(RoundedOps(ops)) && HoldsDoubles(Arr(OpsJson(ops)))
    ensures ReadBody(TxnBody(ops)) == Some(ops) <==> forall k | 0 <= k < |ops| :: Exact(EntryOf(ops[k]))
  {
    hide OpsJson, ReadOps, ParseDocument, DumpText, EntryOf, Fits, Exact, HoldsDoubles, Ordered, AllFinite, Nesting;
    var j := Arr(OpsJson(ops));
    WholeBodyIsFaithful(ops);
    DumpRoundTrip(Standard, j);
    ScrubbedIsIdentity(j);
    OpsRoundTrip(ops);
  }

  lemma EntryOfRounded(op: TxnOperation, other: TxnOperation)
    requires Fits(EntryOf(op)) && Fits(EntryOf(other)) && RoundedOp(op) == RoundedOp(other)
    ensures EntryJson(EntryOf(op)) == EntryJson(EntryOf(other))
  {
    hide ToDouble, RoundToDouble, IsDouble, Rfc4648, VerbText, MapOf, Optional;
    var e, o := EntryOf(op), EntryOf(other);
    if e.index.Some? { ToDoubleIs(e.index.value); }
    if e.flags.Some? { ToDoubleIs(e.flags.value); }
    if o.index.Some? { ToDoubleIs(o.index.value); }
    if o.flags.Some? { ToDoubleIs(o.flags.value); }
    assert EntryFields(EntryOf(op)) == EntryFields(EntryOf(other));
  }

  lemma {:induction false} JsonOfRounded(ops: seq<TxnOperation>, others: seq<TxnOperation>)
    requires RoundedOps(ops) == RoundedOps(others)
    requires forall k | 0 <= k < |ops| :: Fits(EntryOf(ops[k]))
    requires forall k | 0 <= k < |others| :: Fits(EntryOf(others[k]))
    ensures OpsJson(ops) == OpsJson(others)
  {
    hide RoundedOp, EntryJson, EntryOf, Fits;
    if ops != [] && others != [] {
      assert RoundedOps(ops)[0] == RoundedOps(others)[0];
      assert RoundedOps(ops)[1..] == RoundedOps(ops[1..]) && RoundedOps(others)[1..] == RoundedOps(others[1..]);
      EntryOfRounded(ops[0], others[0]);
      JsonOfRounded(ops[1..], others[1..]);
    }
  }

  /** Two transactions have the same body exactly when they are the same but for rounding to double. */
  lemma SameBody(ops: seq<TxnOperation>, others: seq<TxnOperation>)
    requires forall k | 0 <= k < |ops| :: Fits(EntryOf(ops[k]))
    requires forall k | 0 <= k < |others| :: Fits(EntryOf(others[k]))
    ensures TxnBody(ops) == TxnBody(others) <==> RoundedOps(ops) == RoundedOps(others)
  {
    hide EntryOf, Fits, ReadBody, OpsJson, RoundedOps, DumpText;
    TxnBodyRoundTrip(ops);
    TxnBodyRoundTrip(others);
    if RoundedOps(ops) == RoundedOps(others) { JsonOfRounded(ops, others); }
  }

  /** Flags above 2^53 are not told apart: two operations that differ are sent as the same body. */
  lemma FlagsAreLost(key: bytes, value: bytes)
    ensures TxnBody([Set(key, value, TWO_53)]) == TxnBody([Set(key, value, TWO_53 + 1)])
  {
    hide RoundToDouble, OpsJson, DumpText;
    FirstLostInteger();
    var a, b := [Set(key, value, TWO_53)], [Set(key, value, TWO_53 + 1)];
    assert a[1..] == [] && b[1..] == [];
    assert RoundedOps(a) == RoundedOps(b);
    JsonOfRounded(a, b);
  }

  // ---- The methods ----

  /** The s11n::Json::array that the operations are appended to. */
  class JsonArray {
    var items: seq<Json>

    constructor ()
      ensures items == []
    {
      items := [];
    }

    method EmplaceBack(j: Json)
      modifies this
      ensures items == old(items) + [j]
    {
      items := items + [j];
    }
  }

  /** The fields that come out for the combinations that operations have. */
  lemma FieldShapes(e: Entry)
    ensures var fs, o := EntryFields(e), [Member(VERB, Str(VerbText(e.verb))), Member(KEY, Str(e.key))];
            match (e.value, e.index, e.flags, e.session)
            case (None, None, None, None) => fs == o
            case (Some(v), None, Some(f), None) =>
              fs == o + [Member(VALUE, Str(Rfc4648(v))), Member(FLAGS, NumberOf(f))]
            case (Some(v), Some(i), Some(f), None) =>
              fs == o + [Member(VALUE, Str(Rfc4648(v))), Member(INDEX, NumberOf(i)), Member(FLAGS, NumberOf(f))]
            case (None, Some(i), None, None) => fs == o + [Member(INDEX, NumberOf(i))]
            case (Some(v), None, Some(f), Some(s)) =>
              fs == o + [Member(VALUE, Str(Rfc4648(v))), Member(FLAGS, NumberOf(f)), Member(SESSION, Str(s))]
            case (None, None, None, Some(s)) => fs == o + [Member(SESSION, Str(s))]
            case _ => true
  {
    hide Rfc4648, VerbText;
  }

  /** Base64 lengths are ints. */
  predicate ValueFits(e: Entry) {
    e.value.Some? ==> (|e.value.value| + 2) / 3 * 4 <= Base64Codec.INT_MAX
  }

  class TxnOpAppender {
    const arr: JsonArray

    constructor (arr: JsonArray)
      ensures this.arr == arr
    {
      this.arr := arr;
    }

    method Append(o: seq<Member>)
      modifies arr
      ensures arr.items == old(arr.items) + [Obj([Member(KV, Obj(MapOf(o)))])]
    {
      arr.EmplaceBack(Obj([Member(KV, Obj(MapOf(o)))]));
    }

    /** operator(): the twelve overloads, chosen by the kind of the operation. */
    method Visit(op: TxnOperation)
      requires ValueFits(EntryOf(op))
      modifies arr
      ensures arr.items == old(arr.items) + [EntryJson(EntryOf(op))]
    {
      hide MapOf, Rfc4648, VerbText, EntryFields;
      FieldShapes(EntryOf(op));
      match op
      case Set(key, value, flags) =>
        var v := Base64Codec.EncodeBase64(value);
        Append([Member(VERB, Str(VerbText(VSet))), Member(KEY, Str(key))] + [Member(VALUE, Str(v)),
                Member(FLAGS, NumberOf(flags))]);
      case CompareSet(key, expectedIndex, value, flags) =>
        var v := Base64Codec.EncodeBase64(value);
        Append([Member(VERB, Str(VerbText(VCas))), Member(KEY, Str(key))] + [Member(VALUE, Str(v)),
                Member(INDEX, NumberOf(expectedIndex)), Member(FLAGS, NumberOf(flags))]);
      case Get(key) =>
        Append([Member(VERB, Str(VerbText(VGet))), Member(KEY, Str(key))]);
      case GetAll(keyPrefix) =>
        Append([Member(VERB, Str(VerbText(VGetTree))), Member(KEY, Str(keyPrefix))]);
      case CheckIndex(key, expectedIndex) =>
        Append([Member(VERB, Str(VerbText(VCheckIndex))), Member(KEY, Str(key))]
               + [Member(INDEX, NumberOf(expectedIndex))]);
      case CheckNotExists(key) =>
        Append([Member(VERB, Str(VerbText(VCheckNotExists))), Member(KEY, Str(key))]);
      case Erase(key) =>
        Append([Member(VERB, Str(VerbText(VDelete))), Member(KEY, Str(key))]);
      case EraseAll(keyPrefix) =>
        Append([Member(VERB, Str(VerbText(VDeleteTree))), Member(KEY, Str(keyPrefix))]);
      case CompareErase(key, expectedIndex) =>
        Append([Member(VERB, Str(VerbText(VDeleteCas))), Member(KEY, Str(key))]
               + [Member(INDEX, NumberOf(expectedIndex))]);
      case Lock(key, value, session, flags) =>
        var v := Base64Codec.EncodeBase64(value);
        Append([Member(VERB, Str(VerbText(VLock))), Member(KEY, Str(key))] + [Member(VALUE, Str(v)),
                Member(FLAGS, NumberOf(flags)), Member(SESSION, Str(session))]);
      case Unlock(key, value, session, flags) =>
        var v := Base64Codec.EncodeBase64(value);
        Append([Member(VERB, Str(VerbText(VUnlock))), Member(KEY, Str(key))] + [Member(VALUE, Str(v)),
                Member(FLAGS, NumberOf(flags)), Member(SESSION, Str(session))]);
      case CheckSession(key, session) =>
        Append([Member(VERB, Str(VerbText(VCheckSession))), Member(KEY, Str(key))] + [Member(SESSION, Str(session))]);
    }
  }

  lemma {:induction false} OpsJsonAppend(ops: seq<TxnOperation>, op: TxnOperation)
    ensures OpsJson(ops + [op]) == OpsJson(ops) + [EntryJson(EntryOf(op))]
  {
    hide EntryJson, EntryOf;
    if ops == [] {
      assert ops + [op] == [op] && [op][1..] == [];
    } else {
      assert (ops + [op])[1..] == ops[1..] + [op];
      OpsJsonAppend(ops[1..], op);
    }
  }

  /** txnBodyJson. Reading its result back gives the operations with their numbers as doubles. */
  method TxnBodyJson(ops: seq<TxnOperation>) returns (r: bytes)
    requires forall k | 0 <= k < |ops| :: Fits(EntryOf(ops[k])) && ValueFits(EntryOf(ops[k]))
    ensures r == TxnBody(ops) && ReadBody(r) == Some(RoundedOps(ops))
  {
    hide EntryJson, EntryOf, OpsJson, HoldsDoubles, Ordered, AllFinite, DumpText, ReadBody, Fits, Exact;
    hide RoundedOps, ValueFits;
    var arr := new JsonArray();
    assert ops[..0] == [];
    OpsJsonEmpty();
    for k := 0 to |ops|
      invariant arr.items == OpsJson(ops[..k])
    {
      var appender := new TxnOpAppender(arr);
      appender.Visit(ops[k]);
      assert ops[..k + 1] == ops[..k] + [ops[k]];
      OpsJsonAppend(ops[..k], ops[k]);
    }
    assert ops[..|ops|] == ops;
    WholeBodyIsFaithful(ops);
    var out := new StringBuffer();
    Dump(Arr(arr.items), out);
    r := out.s;
    assert [] + DumpText(Arr(OpsJson(ops))) == DumpText(Arr(OpsJson(ops)));
    TxnBodyRoundTrip(ops);
  }

  lemma OpsJsonEmpty()
    ensures OpsJson([]) == []
  {
  }
}
