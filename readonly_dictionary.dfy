/**
 * `LinearSearchReadOnlyDictionary<TKey, TValue>`: a read-only dictionary over
 * an array of key/value pairs. Every lookup scans the pairs front to back, so
 * when a key occurs more than once the first pair holding it wins; every
 * operation that would change the dictionary throws `NotSupportedException`.
 *
 * The pairs are fixed when the dictionary is built, so they are a `const`
 * sequence here. The LINQ operators the class is written with (`Any`,
 * `FirstOrDefault`, `Contains`, `Select`) are the module-level functions on
 * such sequences; the class members apply them to its pairs.
 */
module ReadOnlyDictionary {

  datatype KeyValuePair<K, V> = KeyValuePair(key: K, value: V)

  /** The exceptions the dictionary's members can throw. */
  datatype Exception = NotSupported | ArgumentNull | ArgumentOutOfRange | Argument | NullReference

  datatype Outcome = Done | Thrown(exception: Exception)

  /**
   * Whether `TValue` is a value type (such as `ObjectId`) or a reference
   * type, whose default value is `null`.
   */
  datatype ValueKind = ValueType | ReferenceType

  /** What `TryGetValue` returns, or the exception it throws. */
  datatype Lookup<V> = Returned(found: bool, value: V) | Raised(exception: Exception)

  /** The operations of `IDictionary` that would change the contents. */
  datatype Mutation<K, V> =
    | AddPair(item: KeyValuePair<K, V>)   // Add(KeyValuePair)
    | Clear                               // Clear()
    | RemovePair(item: KeyValuePair<K, V>) // Remove(KeyValuePair)
    | AddEntry(key: K, value: V)          // Add(key, value)
    | RemoveKey(key: K)                   // Remove(key)
    | SetEntry(key: K, value: V)          // this[key] = value

  /** Index `i` holds the first pair of `kvs` whose key is `key`. */
  predicate FirstMatch<K(==), V>(kvs: seq<KeyValuePair<K, V>>, key: K, i: int)
  {
    0 <= i < |kvs| && kvs[i].key == key && forall j :: 0 <= j < i ==> kvs[j].key != key
  }

  /** `kvs.Any(kv => kv.Key.Equals(key))`. */
  function AnyKey<K(==), V>(kvs: seq<KeyValuePair<K, V>>, key: K): (b: bool)
    ensures b <==> exists i :: 0 <= i < |kvs| && kvs[i].key == key
  {
    if |kvs| == 0 then false
    else if kvs[0].key == key then true
    else
      assert forall i :: 1 <= i < |kvs| ==> kvs[i] == kvs[1..][i - 1];
      AnyKey(kvs[1..], key)
  }

  /**
   * `kvs.FirstOrDefault(kv => kv.Key.Equals(key)).Value`: the value of the
   * first match, or the value of the default pair, `none`, when no key matches.
   */
  function FirstValueOrDefault<K(==), V>(kvs: seq<KeyValuePair<K, V>>, key: K, none: V): V
  {
    if |kvs| == 0 then none
    else if kvs[0].key == key then kvs[0].value
    else FirstValueOrDefault(kvs[1..], key, none)
  }

  /** `kvs.Contains(item)`, comparing pairs by their key and value. */
  function Occurs<K(==), V(==)>(kvs: seq<KeyValuePair<K, V>>, item: KeyValuePair<K, V>): (b: bool)
    ensures b <==> item in kvs
  {
    if |kvs| == 0 then false
    else
      assert kvs == [kvs[0]] + kvs[1..];
      kvs[0] == item || Occurs(kvs[1..], item)
  }

  /** `kvs.Select(kvp => kvp.Key)`. */
  function KeysOf<K, V>(kvs: seq<KeyValuePair<K, V>>): (r: seq<K>)
    ensures |r| == |kvs|
    ensures forall i :: 0 <= i < |kvs| ==> r[i] == kvs[i].key
  {
    if |kvs| == 0 then [] else [kvs[0].key] + KeysOf(kvs[1..])
  }

  /** `kvs.Select(kvp => kvp.Value)`. */
  function ValuesOf<K, V>(kvs: seq<KeyValuePair<K, V>>): (r: seq<V>)
    ensures |r| == |kvs|
    ensures forall i :: 0 <= i < |kvs| ==> r[i] == kvs[i].value
  {
    if |kvs| == 0 then [] else [kvs[0].value] + ValuesOf(kvs[1..])
  }

  /** The scan yields the value at the first match, and `none` when nothing matches. */
  lemma {:induction false} FirstValueOrDefaultSpec<K, V>(kvs: seq<KeyValuePair<K, V>>, key: K, none: V)
    ensures forall i :: FirstMatch(kvs, key, i) ==> FirstValueOrDefault(kvs, key, none) == kvs[i].value
    ensures !AnyKey(kvs, key) ==> FirstValueOrDefault(kvs, key, none) == none
  {
    if |kvs| > 0 && kvs[0].key != key {
      FirstValueOrDefaultSpec(kvs[1..], key, none);
      forall i | FirstMatch(kvs, key, i)
        ensures FirstMatch(kvs[1..], key, i - 1)
      {
        assert i != 0;
      }
    }
  }

  /** When some key matches, there is a first match. */
  lemma {:induction false} FirstMatchExists<K, V>(kvs: seq<KeyValuePair<K, V>>, key: K)
    requires AnyKey(kvs, key)
    ensures exists i :: FirstMatch(kvs, key, i)
  {
    if kvs[0].key != key {
      FirstMatchExists(kvs[1..], key);
      var t :| FirstMatch(kvs[1..], key, t);
      assert FirstMatch(kvs, key, t + 1);
    } else {
      assert FirstMatch(kvs, key, 0);
    }
  }

  /**
   * Pairs appended after a key's first occurrence do not change its lookup:
   * with duplicate keys, the earlier pair wins.
   */
  lemma {:induction false} EarlierPairWins<K, V>(kvs: seq<KeyValuePair<K, V>>, later: seq<KeyValuePair<K, V>>, key: K, none: V)
    requires AnyKey(kvs, key)
    ensures FirstValueOrDefault(kvs + later, key, none) == FirstValueOrDefault(kvs, key, none)
  {
    if kvs[0].key != key {
      assert (kvs + later)[1..] == kvs[1..] + later;
      EarlierPairWins(kvs[1..], later, key, none);
    }
  }

  class LinearSearchReadOnlyDictionary<K(==), V(==)> {
    /** The array of pairs the dictionary was built from. */
    const kvs: seq<KeyValuePair<K, V>>
    /** `default(TValue)`, which lookups of a missing key return; `null` for a reference type. */
    const none: V
    /** Whether `TValue` is a value type or a reference type. */
    const kind: ValueKind

    constructor (kvs: seq<KeyValuePair<K, V>>, none: V, kind: ValueKind)
      ensures this.kvs == kvs && this.none == none && this.kind == kind
    {
      this.kvs := kvs;
      this.none := none;
      this.kind := kind;
    }

    /** `Count`: the number of pairs, which is also the length of both projections. */
    function Count(): (n: nat)
      ensures n == |Keys()| && n == |Values()|
    {
      |kvs|
    }

    /** `IsReadOnly`. */
    function IsReadOnly(): (b: bool)
      ensures b
    {
      true
    }

    /** `ContainsKey(key)`: whether some pair has this key. */
    function ContainsKey(key: K): (b: bool)
      ensures b <==> exists i :: 0 <= i < |kvs| && kvs[i].key == key
      ensures b <==> key in Keys()
    {
      AnyKey(kvs, key)
    }

    /** `Contains(item)`: whether the pair occurs in the array. */
    function Contains(item: KeyValuePair<K, V>): (b: bool)
      ensures b <==> exists i :: 0 <= i < |kvs| && kvs[i] == item
      ensures b ==> ContainsKey(item.key)
    {
      Occurs(kvs, item)
    }

    /**
     * The indexer's getter `this[key]`: the value of the first pair holding
     * `key`, or `default(TValue)` when there is none. It never throws.
     */
    function Get(key: K): (v: V)
      ensures forall i :: FirstMatch(kvs, key, i) ==> v == kvs[i].value
      ensures !ContainsKey(key) ==> v == none
      ensures ContainsKey(key) ==> Contains(KeyValuePair(key, v))
    {
      FirstValueOrDefaultSpec(kvs, key, none);
      if AnyKey(kvs, key) then
        FirstMatchExists(kvs, key);
        var i :| FirstMatch(kvs, key, i);
        assert kvs[i] == KeyValuePair(key, kvs[i].value);
        FirstValueOrDefault(kvs, key, none)
      else
        FirstValueOrDefault(kvs, key, none)
    }

    /**
     * `TryGetValue(key, out value)` as written: `value` is the indexer's
     * result and the answer is `!value.Equals(default)`. `TValue` is
     * unconstrained, so the call is `object.Equals(object)` and `default` is
     * the null object. A boxed value never equals null, so for a value type
     * the answer is true for every key, a missing one included. For a
     * reference type a null value (a missing key among them) throws
     * `NullReferenceException`, and any other value answers true.
     */
    function TryGetValue(key: K): (r: Lookup<V>)
      ensures r.Returned? ==> r.found && r.value == Get(key)
      ensures r.Raised? <==> kind == ReferenceType && Get(key) == none
      ensures r.Raised? ==> r.exception == NullReference
      ensures kind == ReferenceType && !ContainsKey(key) ==> r == Raised(NullReference)
    {
      var value := Get(key);
      if kind == ReferenceType && value == none then Raised(NullReference) else Returned(true, value)
    }

    /** With a value type, a key no pair holds is reported present, with the default value. */
    lemma MissingKeyReportedPresent(key: K)
      requires kind == ValueType && !ContainsKey(key)
      ensures TryGetValue(key) == Returned(true, none)
    {
    }

    /**
     * `TryGetValue` as its test evidently means it: the answer is whether the
     * indexer's value differs from `default(TValue)`, compared as a `TValue`.
     * A missing key reports false; true means the key is present with that
     * value; a key whose first pair holds the default reports false too.
     */
    function TryGetValueIntended(key: K): (r: (bool, V))
      ensures r.1 == Get(key)
      ensures r.0 <==> ContainsKey(key) && Get(key) != none
      ensures r.0 ==> Contains(KeyValuePair(key, r.1))
      ensures !ContainsKey(key) ==> !r.0 && r.1 == none
    {
      var value := Get(key);
      (value != none, value)
    }

    /** `Keys`: the keys of the pairs, in array order. */
    function Keys(): (r: seq<K>)
      ensures |r| == |kvs|
      ensures forall i :: 0 <= i < |kvs| ==> r[i] == kvs[i].key
    {
      KeysOf(kvs)
    }

    /** `Values`: the values of the pairs, in array order. */
    function Values(): (r: seq<V>)
      ensures |r| == |kvs|
      ensures forall i :: 0 <= i < |kvs| ==> r[i] == kvs[i].value
    {
      ValuesOf(kvs)
    }

    /**
     * `GetEnumerator()`: the pairs in array order, each made of the key and
     * the value at the same position of `Keys` and `Values`.
     */
    function Enumerate(): (r: seq<KeyValuePair<K, V>>)
      ensures |r| == Count()
      ensures forall i :: 0 <= i < |r| ==> r[i] == KeyValuePair(Keys()[i], Values()[i])
    {
      kvs
    }

    /**
     * Both `Add` overloads, `Clear`, both `Remove` overloads and the
     * indexer's setter throw `NotSupportedException`; the pairs are constant,
     * so the contents stay as they were.
     */
    method Mutate(m: Mutation<K, V>) returns (r: Outcome)
      ensures r == Thrown(NotSupported)
    {
      r := Thrown(NotSupported);
    }

    /**
     * `CopyTo(array, arrayIndex)`, which is `Array.CopyTo`: it throws on a
     * null array, on a negative index and when the pairs do not fit from
     * `arrayIndex` on; otherwise it writes the pairs to
     * `array[arrayIndex..arrayIndex + Count]` and nothing else.
     */
    method CopyTo(target: array?<KeyValuePair<K, V>>, arrayIndex: int) returns (r: Outcome)
      modifies target
      ensures target == null ==> r == Thrown(ArgumentNull)
      ensures target != null && arrayIndex < 0 ==> r == Thrown(ArgumentOutOfRange)
      ensures target != null && 0 <= arrayIndex && target.Length < arrayIndex + |kvs| ==> r == Thrown(Argument)
      ensures r.Thrown? && target != null ==> target[..] == old(target[..])
      ensures r == Done <==> target != null && 0 <= arrayIndex && arrayIndex + |kvs| <= target.Length
      ensures r == Done ==> target[arrayIndex..arrayIndex + |kvs|] == kvs
      ensures r == Done ==> forall j :: 0 <= j < target.Length && !(arrayIndex <= j < arrayIndex + |kvs|) ==>
                target[j] == old(target[j])
    {
      if target == null {
        return Thrown(ArgumentNull);
      }
      if arrayIndex < 0 {
        return Thrown(ArgumentOutOfRange);
      }
      if target.Length - arrayIndex < |kvs| {
        return Thrown(Argument);
      }
      for k := 0 to |kvs|
        invariant forall j :: 0 <= j < k ==> target[arrayIndex + j] == kvs[j]
        invariant forall j :: 0 <= j < target.Length && !(arrayIndex <= j < arrayIndex + k) ==>
                    target[j] == old(target[j])
      {
        target[arrayIndex + k] := kvs[k];
      }
      return Done;
    }
  }
}
