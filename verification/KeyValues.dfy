/** Loading the key-value entries of a response: s11n::parseJson and load(KeyValue). */
module KeyValues {
  import opened Bytes
  import opened JsonValue
  import opened JsonGrammar
  import opened JsonSyntax
  import opened Base64
  import opened Doubles
  import JsonMulti

  datatype KeyValue = KeyValue(
    createIndex: nat,
    modifyIndex: nat,
    lockIndex: nat,
    flags: nat,
    key: bytes,
    value: bytes,
    session: bytes)

  // ---- Access to a Json value of any type ----

  /** operator[] with a key: null when there is no such member. */
  function Field(j: Json, name: bytes): Json {
    if !j.Obj? then Nul
    else
      match Find(j.members, name)
      case Some(v) => v
      case None => Nul
  }

  function ArrayItems(j: Json): seq<Json> {
    if j.Arr? then j.items else []
  }

  function StringValue(j: Json): bytes {
    if j.Str? then j.s else []
  }

  function NumberValue(j: Json): Double {
    if j.Num? then j.n else Finite(0.0)
  }

  /** static_cast<uint64_t> truncates; out of range it is undefined. */
  function ToUint64(d: Double): Option<nat> {
    if d.Finite? && -1.0 < d.r < TWO_64 as real then Some(if d.r < 0.0 then 0 else d.r.Floor)
    else None
  }

  // ---- load ----

  const CREATE_INDEX: bytes := Ascii("CreateIndex")
  const MODIFY_INDEX: bytes := Ascii("ModifyIndex")
  const LOCK_INDEX: bytes := Ascii("LockIndex")
  const KEY: bytes := Ascii("Key")
  const FLAGS: bytes := Ascii("Flags")
  const VALUE: bytes := Ascii("Value")
  const SESSION: bytes := Ascii("Session")

  function LoadUint64(j: Json, name: bytes): Option<nat> {
    ToUint64(NumberValue(Field(j, name)))
  }

  /** load(KeyValue), None when a number has no uint64_t. */
  function Loaded(j: Json): Option<KeyValue> {
    var c, m := LoadUint64(j, CREATE_INDEX), LoadUint64(j, MODIFY_INDEX);
    var l, f := LoadUint64(j, LOCK_INDEX), LoadUint64(j, FLAGS);
    if c == None || m == None || l == None || f == None then None
    else
      Some(KeyValue(c.value, m.value, l.value, f.value, StringValue(Field(j, KEY)),
                    DecodeText(StringValue(Field(j, VALUE))), StringValue(Field(j, SESSION))))
  }

  function LoadedAll(js: seq<Json>): Option<seq<KeyValue>> {
    if js == [] then Some([])
    else
      match Loaded(js[0])
      case None => None
      case Some(kv) =>
        match LoadedAll(js[1..])
        case None => None
        case Some(kvs) => Some([kv] + kvs)
  }

  datatype Outcome =
    | Values(kvs: seq<KeyValue>)
    | FormatError(e: ParseError)
    | Undefined

  lemma {:induction false} LoadedAppend(js: seq<Json>, j: Json)
    ensures LoadedAll(js + [j])
         == if LoadedAll(js) == None || Loaded(j) == None then None else Some(LoadedAll(js).value + [Loaded(j).value])
  {
    hide Loaded;
    if js == [] {
      assert js + [j] == [j] && LoadedAll([j][1..]) == Some([]);
      if Loaded(j).Some? {
        var kv := Loaded(j).value;
        assert [kv] + [] == [kv] == [] + [kv];
      }
    } else {
      assert (js + [j])[1..] == js[1..] + [j];
      LoadedAppend(js[1..], j);
      if LoadedAll(js + [j]) != None {
        var kv, rest, last := Loaded(js[0]).value, LoadedAll(js[1..]).value, Loaded(j).value;
        assert [kv] + (rest + [last]) == [kv] + rest + [last];
      }
    }
  }

  lemma {:induction false} LoadedPrefix(js: seq<Json>, k: nat)
    requires k <= |js| && LoadedAll(js[..k]) == None
    ensures LoadedAll(js) == None
    decreases |js| - k
  {
    hide Loaded;
    if k < |js| {
      assert js[..k + 1] == js[..k] + [js[k]];
      LoadedAppend(js[..k], js[k]);
      LoadedPrefix(js, k + 1);
    } else {
      assert js[..k] == js;
    }
  }

  /** parseValues: what the parser rejects is a FormatError, and anything but an array holds no entries. */
  method ParseValues(resp: bytes) returns (r: Outcome)
    ensures match ParseDocument(Standard, resp)
            case Fail(e) => r == FormatError(e)
            case Ok(c, _) =>
              var loaded := LoadedAll(ArrayItems(Value(c)));
              r == if loaded == None then Undefined else Values(loaded.value)
    ensures forall kvs | Response(resp, kvs) :: r == Values(kvs)
  {
    hide Value, Loaded, LoadedAll, ParseDocument, Response;
    ResponseIsLoaded(resp);
    NothingLoaded();
    var obj, err := JsonMulti.Parse(resp, None, Standard);
    if err.Some? {
      return FormatError(err.value);
    }
    var arr := ArrayItems(obj);
    var dst: seq<KeyValue> := [];
    for i := 0 to |arr|
      invariant LoadedAll(arr[..i]) == Some(dst)
    {
      assert arr[..i + 1] == arr[..i] + [arr[i]];
      LoadedAppend(arr[..i], arr[i]);
      var t := Loaded(arr[i]);
      if t == None {
        LoadedPrefix(arr, i + 1);
        return Undefined;
      }
      dst := dst + [t.value];
    }
    assert arr[..|arr|] == arr;
    r := Values(dst);
  }

  // ---- What a server sends is what is loaded ----

  /** The number is what the parser makes of the integer, which is a double; what is no number counts as zero. */
  ghost predicate IsNumber(j: Json, n: nat) {
    (n < TWO_64 && IsDouble(n as real) && j == Num(RoundToDouble(n as real))) || (n == 0 && !j.Num?)
  }

  /** The conversion drops the fraction, so that it is defined above -1 and below 2^64. */
  lemma FractionIsDropped(r: real, n: nat)
    ensures ToUint64(Finite(r)) == Some(n) <==>
      n < TWO_64 && (n as real <= r < (n + 1) as real || (n == 0 && -1.0 < r < 0.0))
  {
  }

  /** An integer literal of 64 bits is loaded as the double it is rounded to; unchanged exactly if it is one. */
  lemma LoadedIntegers(n: nat)
    requires n < TWO_64
    ensures ToUint64(RoundToDouble(n as real)) == Some(n) <==> IsDouble(n as real)
    ensures ToUint64(RoundToDouble(n as real)) == if ToDouble(n) < TWO_64 then Some(ToDouble(n)) else None
  {
    hide RoundToDouble, IsDouble, ToDouble;
    ToDoubleIs(n);
  }

  /** The greatest of them is rounded up to 2^64, which has no uint64_t. */
  lemma GreatestIsUndefined()
    ensures ToUint64(RoundToDouble((TWO_64 - 1) as real)) == None
  {
    hide RoundToDouble;
    GreatestInteger();
  }

  /** An object describes an entry by its fields, in any order and next to others. */
  ghost predicate Describes(j: Json, kv: KeyValue) {
    && IsNumber(Field(j, Ascii("CreateIndex")), kv.createIndex)
    && IsNumber(Field(j, Ascii("ModifyIndex")), kv.modifyIndex)
    && IsNumber(Field(j, Ascii("LockIndex")), kv.lockIndex)
    && IsNumber(Field(j, Ascii("Flags")), kv.flags)
    && IsText(Field(j, Ascii("Key")), kv.key)
    && IsText(Field(j, Ascii("Value")), Rfc4648(kv.value))
    && IsText(Field(j, Ascii("Session")), kv.session)
  }

  /** What is missing, null or of another type is taken for the empty string. */
  predicate IsText(j: Json, s: bytes) {
    j == Str(s) || (s == [] && !j.Str?)
  }

  lemma LoadedIsDescribed(j: Json, kv: KeyValue)
    requires Describes(j, kv)
    ensures Loaded(j) == Some(kv)
  {
    hide Field, DecodeText, RoundToDouble, IsDouble, ToUint64;
    FractionIsDropped(0.0, 0);
    DecodeUndoesEncode([]);
    LoadedIntegers(kv.createIndex);
    LoadedIntegers(kv.modifyIndex);
    LoadedIntegers(kv.lockIndex);
    LoadedIntegers(kv.flags);
    DecodeUndoesEncode(kv.value);
  }

  /** The entries loaded from descriptions are the described ones, in order, with their values decoded. */
  lemma {:induction false} AllLoaded(js: seq<Json>, kvs: seq<KeyValue>)
    requires |js| == |kvs| && forall k | 0 <= k < |js| :: Describes(js[k], kvs[k])
    ensures LoadedAll(js) == Some(kvs)
  {
    hide Describes, Loaded;
    if js != [] {
      LoadedIsDescribed(js[0], kvs[0]);
      AllLoaded(js[1..], kvs[1..]);
      assert kvs == [kvs[0]] + kvs[1..];
    }
  }

  /** The text parses to an array whose items describe the entries, or to another value and there are none. */
  ghost predicate Response(resp: bytes, kvs: seq<KeyValue>) {
    var p := ParseDocument(Standard, resp);
    p.Ok? &&
    match Value(p.v)
    case Arr(items) => |items| == |kvs| && forall k | 0 <= k < |kvs| :: Describes(items[k], kvs[k])
    case _ => kvs == []
  }

  lemma ResponseIsLoaded(resp: bytes)
    ensures forall kvs | Response(resp, kvs) ::
              ParseDocument(Standard, resp).Ok?
              && LoadedAll(ArrayItems(Value(ParseDocument(Standard, resp).v))) == Some(kvs)
  {
    hide ParseDocument, Describes, LoadedAll;
    forall kvs | Response(resp, kvs)
      ensures LoadedAll(ArrayItems(Value(ParseDocument(Standard, resp).v))) == Some(kvs)
    {
      NothingLoaded();
      AllLoaded(ArrayItems(Value(ParseDocument(Standard, resp).v)), kvs);
    }
  }

  lemma NothingLoaded()
    ensures LoadedAll([]) == Some([])
  {
  }
}
