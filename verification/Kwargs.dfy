/**
 Keyword arguments: which occurrence of a repeated keyword counts. The folds that the templates do
 over types are functions over the sequence of keywords.
 */
module Kwargs {
  // ---- unique_indexes ----

  /** reverse_iter_fold: from the last keyword to the first, push the index of a keyword not seen yet. */
  function FoldBack<K(==)>(keys: seq<K>, i: nat, indexes: seq<nat>, seen: set<K>): seq<nat>
    requires i <= |keys|
  {
    if i == 0 then indexes
    else
      var k := keys[i - 1];
      FoldBack(keys, i - 1, if k in seen then indexes else indexes + [i - 1], seen + {k})
  }

  function Reverse<T>(s: seq<T>): (r: seq<T>)
    ensures |r| == |s| && forall k | 0 <= k < |s| :: r[k] == s[|s| - 1 - k]
  {
    if s == [] then [] else Reverse(s[1..]) + [s[0]]
  }

  function UniqueIndexes<K(==)>(keys: seq<K>): seq<nat> {
    Reverse(FoldBack(keys, |keys|, [], {}))
  }

  predicate IsLast<K(==)>(keys: seq<K>, i: nat)
    requires i < |keys|
  {
    forall j | i < j < |keys| :: keys[j] != keys[i]
  }

  /** The indexes from `i` on of last occurrences, in ascending order. */
  function LastIndexes<K(==)>(keys: seq<K>, i: nat): seq<nat>
    requires i <= |keys|
    decreases |keys| - i
  {
    if i == |keys| then []
    else if IsLast(keys, i) then [i] + LastIndexes(keys, i + 1)
    else LastIndexes(keys, i + 1)
  }

  lemma ReverseAppend<T>(s: seq<T>, x: T)
    ensures Reverse(s + [x]) == [x] + Reverse(s)
  {
  }

  lemma {:induction false} FoldBackIsLast<K>(keys: seq<K>, i: nat, indexes: seq<nat>, seen: set<K>)
    requires i <= |keys| && seen == (set j | i <= j < |keys| :: keys[j])
    requires Reverse(indexes) == LastIndexes(keys, i)
    ensures Reverse(FoldBack(keys, i, indexes, seen)) == LastIndexes(keys, 0)
    decreases i
  {
    hide Reverse;
    if i > 0 {
      var k := keys[i - 1];
      assert k in seen <==> !IsLast(keys, i - 1);
      assert seen + {k} == set j | i - 1 <= j < |keys| :: keys[j];
      ReverseAppend(indexes, i - 1);
      FoldBackIsLast(keys, i - 1, if k in seen then indexes else indexes + [i - 1], seen + {k});
    }
  }

  lemma {:induction false} LastIndexesAre<K>(keys: seq<K>, i: nat, j: nat)
    requires i <= |keys|
    ensures j in LastIndexes(keys, i) <==> i <= j < |keys| && IsLast(keys, j)
    decreases |keys| - i
  {
    hide IsLast;
    if i < |keys| { LastIndexesAre(keys, i + 1, j); }
  }

  predicate Ascending(r: seq<nat>, lo: nat) {
    && (forall k | 0 <= k < |r| :: lo <= r[k])
    && (forall a, b | 0 <= a < b < |r| :: r[a] < r[b])
  }

  lemma {:induction false} LastIndexesAscend<K>(keys: seq<K>, i: nat)
    requires i <= |keys|
    ensures Ascending(LastIndexes(keys, i), i)
    decreases |keys| - i
  {
    if i < |keys| {
      LastIndexesAscend(keys, i + 1);
    }
  }

  lemma UniqueIsLast<K>(keys: seq<K>)
    ensures UniqueIndexes(keys) == LastIndexes(keys, 0)
  {
    FoldBackIsLast(keys, |keys|, [], {});
  }

  /** unique_indexes lists exactly the last occurrence of every keyword, in ascending order. */
  lemma UniqueIndexesAreLast<K>(keys: seq<K>)
    ensures var r := UniqueIndexes(keys);
            && (forall j: nat :: j in r <==> j < |keys| && IsLast(keys, j))
            && Ascending(r, 0)
  {
    hide UniqueIndexes, LastIndexes, IsLast;
    UniqueIsLast(keys);
    LastIndexesAscend(keys, 0);
    forall j: nat ensures j in UniqueIndexes(keys) <==> j < |keys| && IsLast(keys, j) {
      LastIndexesAre(keys, 0, j);
    }
  }

  // ---- keyword_index ----

  function FindFirst<K(==)>(keys: seq<K>, k: K): (i: nat)
    ensures i <= |keys| && (i < |keys| <==> k in keys) && (i < |keys| ==> keys[i] == k)
    ensures forall j | 0 <= j < i :: keys[j] != k
  {
    if keys == [] || keys[0] == k then 0 else 1 + FindFirst(keys[1..], k)
  }

  /** One less than the distance from the keyword to the end, in the reversed sequence. */
  function KeywordIndex<K(==)>(keys: seq<K>, k: K): (i: int)
    ensures k in keys ==> 0 <= i < |keys|
  {
    var r := Reverse(keys);
    assert k in keys ==> exists j :: 0 <= j < |keys| && keys[j] == k && r[|keys| - 1 - j] == k;
    |keys| - FindFirst(r, k) - 1
  }

  /** get picks the last occurrence, which is the one occurrence of the keyword that unique_args keeps. */
  lemma GetPicksTheKeptOne<K>(keys: seq<K>, k: K)
    requires k in keys
    ensures var i := KeywordIndex(keys, k);
            && keys[i] == k && IsLast(keys, i) && i in UniqueIndexes(keys)
            && forall j | j in UniqueIndexes(keys) && 0 <= j < |keys| && keys[j] == k :: j == i
  {
    UniqueIndexesAreLast(keys);
    var i := KeywordIndex(keys, k);
    var r := Reverse(keys);
    forall j | i < j < |keys| ensures keys[j] != keys[i] {
      assert r[|keys| - 1 - j] == keys[j];
    }
    forall j | j in UniqueIndexes(keys) && 0 <= j < |keys| && keys[j] == k ensures j == i {
      assert IsLast(keys, j);
    }
  }

  // ---- unique_args, get and get_opt ----

  /** A keyword with its value. */
  datatype KwArg<K, V> = KwArg(key: K, value: V)

  function KeysOf<K, V>(args: seq<KwArg<K, V>>): (r: seq<K>)
    ensures |r| == |args|
  {
    seq(|args|, k requires 0 <= k < |args| => args[k].key)
  }

  function Pick<K, V>(args: seq<KwArg<K, V>>, indexes: seq<nat>): seq<KwArg<K, V>>
    requires forall k | 0 <= k < |indexes| :: indexes[k] < |args|
  {
    if indexes == [] then [] else [args[indexes[0]]] + Pick(args, indexes[1..])
  }

  function UniqueArgs<K(==), V>(args: seq<KwArg<K, V>>): seq<KwArg<K, V>> {
    var indexes := UniqueIndexes(KeysOf(args));
    UniqueIndexesAreLast(KeysOf(args));
    assert forall k | 0 <= k < |indexes| :: indexes[k] in indexes;
    Pick(args, indexes)
  }

  function GetOpt<K(==), V>(args: seq<KwArg<K, V>>, key: K, default: V): V {
    var keys := KeysOf(args);
    if key in keys then args[KeywordIndex(keys, key)].value else default
  }

  /** Drop every argument whose keyword comes again later. */
  function KeepLast<K(==), V>(args: seq<KwArg<K, V>>): seq<KwArg<K, V>> {
    if args == [] then []
    else if args[0].key in KeysOf(args[1..]) then KeepLast(args[1..])
    else [args[0]] + KeepLast(args[1..])
  }

  function Without<K(==), V>(args: seq<KwArg<K, V>>, key: K): seq<KwArg<K, V>> {
    if args == [] then []
    else if args[0].key == key then Without(args[1..], key)
    else [args[0]] + Without(args[1..], key)
  }

  lemma LastMeansNotLater<K, V>(args: seq<KwArg<K, V>>, i: nat)
    requires i < |args|
    ensures IsLast(KeysOf(args), i) <==> args[i].key !in KeysOf(args[i + 1..])
  {
    var keys := KeysOf(args);
    assert KeysOf(args[i + 1..]) == keys[i + 1..];
    assert forall j | i < j < |keys| :: keys[j] == keys[i + 1..][j - i - 1];
  }

  lemma {:induction false} PickLast<K, V>(args: seq<KwArg<K, V>>, i: nat)
    requires i <= |args|
    ensures var r := LastIndexes(KeysOf(args), i);
            (forall k | 0 <= k < |r| :: r[k] < |args|) && Pick(args, r) == KeepLast(args[i..])
    decreases |args| - i
  {
    hide KeysOf, IsLast;
    if i < |args| {
      PickLast(args, i + 1);
      LastMeansNotLater(args, i);
      assert args[i..][1..] == args[i + 1..];
      var rest := LastIndexes(KeysOf(args), i + 1);
      assert ([i] + rest)[1..] == rest;
    }
  }

  /** unique_args keeps the last occurrence of every keyword, in order of last occurrence. */
  lemma UniqueArgsKeepLast<K, V>(args: seq<KwArg<K, V>>)
    ensures UniqueArgs(args) == KeepLast(args)
  {
    var keys := KeysOf(args);
    UniqueIsLast(keys);
    PickLast(args, 0);
    assert args[0..] == args;
  }

  lemma {:induction false} KeepLastHas<K, V>(args: seq<KwArg<K, V>>, i: nat)
    requires i < |args| && IsLast(KeysOf(args), i)
    ensures args[i] in KeepLast(args)
  {
    var keys, rest := KeysOf(args), KeysOf(args[1..]);
    if i == 0 {
      assert forall j | 0 <= j < |rest| :: rest[j] == keys[j + 1];
    } else {
      assert forall j | 0 <= j < |rest| :: rest[j] == keys[j + 1];
      KeepLastHas(args[1..], i - 1);
    }
  }

  lemma {:induction false} KeepLastUnique<K, V>(args: seq<KwArg<K, V>>)
    ensures forall a | a in KeepLast(args) :: a.key in KeysOf(args)
    ensures forall a, b | a in KeepLast(args) && b in KeepLast(args) && a.key == b.key :: a == b
  {
    if args != [] {
      KeepLastUnique(args[1..]);
      assert KeysOf(args) == [args[0].key] + KeysOf(args[1..]);
    }
  }

  /** get_opt gives the value that unique_args keeps for the keyword, and the default when there is none. */
  lemma GetOptIsKept<K, V>(args: seq<KwArg<K, V>>, key: K, default: V, v: V)
    ensures KwArg(key, v) in UniqueArgs(args) <==> key in KeysOf(args) && v == GetOpt(args, key, default)
    ensures key !in KeysOf(args) ==> GetOpt(args, key, default) == default
  {
    UniqueArgsKeepLast(args);
    KeepLastUnique(args);
    var keys := KeysOf(args);
    if key in keys {
      GetPicksTheKeptOne(keys, key);
      var i := KeywordIndex(keys, key);
      KeepLastHas(args, i);
      assert args[i] == KwArg(key, args[i].value);
    }
  }

  lemma KeysHead<K, V>(args: seq<KwArg<K, V>>, k: K)
    requires args != []
    ensures k in KeysOf(args) <==> k == args[0].key || k in KeysOf(args[1..])
  {
    assert KeysOf(args) == [args[0].key] + KeysOf(args[1..]);
  }

  lemma {:induction false} WithoutKeys<K, V>(args: seq<KwArg<K, V>>, key: K, k: K)
    ensures k in KeysOf(Without(args, key)) <==> k in KeysOf(args) && k != key
  {
    hide KeysOf;
    if args == [] {
    } else {
      WithoutKeys(args[1..], key, k);
      KeysHead(args, k);
      var w := Without(args[1..], key);
      assert ([args[0]] + w)[1..] == w;
      KeysHead([args[0]] + w, k);
    }
  }

  lemma KeysAppend<K, V>(args: seq<KwArg<K, V>>, last: KwArg<K, V>, k: K)
    ensures k in KeysOf(args + [last]) <==> k in KeysOf(args) || k == last.key
  {
    assert KeysOf(args + [last]) == KeysOf(args) + [last.key];
  }

  /** A last argument takes the place of every earlier one with its keyword. */
  lemma {:induction false} LastArgShadows<K, V>(args: seq<KwArg<K, V>>, last: KwArg<K, V>)
    ensures KeepLast(args + [last]) == KeepLast(Without(args, last.key)) + [last]
  {
    hide KeysOf;
    var all := args + [last];
    if args == [] {
      assert all[1..] == [];
      assert KeysOf(all[1..]) == [];
    } else {
      var head, tail := args[0], args[1..];
      var w := Without(tail, last.key);
      LastArgShadows(tail, last);
      WithoutKeys(tail, last.key, head.key);
      KeysAppend(tail, last, head.key);
      assert all[1..] == tail + [last];
      assert ([head] + w)[1..] == w;
      assert [head] + (KeepLast(w) + [last]) == [head] + KeepLast(w) + [last];
    }
  }
}
