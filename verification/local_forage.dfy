/**
 * The localforage storage adapter: a binding to one namespace over a single
 * key-value store shared by every binding. Each call is one atomic step over
 * the store, which is modelled as a map.
 */
module LocalForage {
  import opened JsValues

  /** A stored value; `Null` is a value like any other and can be stored. */
  datatype Value = Null | Data(text: string)

  /** The `value` argument of `put`, which may be `undefined`. */
  datatype Arg = Undefined | Defined(v: Value)

  datatype Error = Error(message: string) | NotFoundError(message: string)

  /** The whole backing store, across all namespaces. */
  type Store = map<string, Value>

  /** A binding returned by `bind`: its namespace. */
  datatype Bound = Bound(namespace: string)

  /** What `bind` reads of its `options` argument. */
  datatype BindOptions = BindOptions(logger: bool)

  const NamespaceRequired := "`namespace` is required"
  const LoggerRequired := "`options.logger` is required"

  /**
   * `bind(namespace, options)`: a missing `options` counts as `{}`, and the
   * namespace is checked before the logger.
   */
  function Bind(namespace: Option<string>, options: Option<BindOptions>): (r: Result<Bound, Error>)
    ensures r.Ok? <==> namespace.Some? && namespace.value != "" && options.Some? && options.value.logger
    ensures r.Ok? ==> r.value.namespace == namespace.value
    ensures (namespace.None? || namespace.value == "") ==> r == Err(Error(NamespaceRequired))
    ensures namespace.Some? && namespace.value != "" && r.Err? ==> r == Err(Error(LoggerRequired))
  {
    var opts := options.OrDefault(BindOptions(false));
    if namespace.None? || namespace.value == "" then Err(Error(NamespaceRequired))
    else if !opts.logger then Err(Error(LoggerRequired))
    else Ok(Bound(namespace.value))
  }

  /** The store key a bound call addresses: `${namespace}/${key}`. */
  function StoreKey(b: Bound, key: string): (k: string)
    ensures |k| == |b.namespace| + 1 + |key|
    ensures k[..|b.namespace|] == b.namespace && k[|b.namespace|] == '/' && k[|b.namespace| + 1..] == key
  {
    b.namespace + "/" + key
  }

  /** localforage's `getItem`: the stored value, or `null` when the key is absent. */
  function GetItem(store: Store, k: string): Value {
    if k in store then store[k] else Null
  }

  /**
   * `get(key)`: a `null` from `getItem` is ambiguous, so the store's keys are
   * consulted to tell a stored `null` from a missing key.
   */
  function Get(b: Bound, store: Store, key: string): Result<Value, Error> {
    var k := StoreKey(b, key);
    var value := GetItem(store, k);
    if value == Null then
      if k in store.Keys then Ok(value)
      else Err(NotFoundError("No value found for " + k))
    else Ok(value)
  }

  /** `del(key)`: localforage's `removeItem` on the prefixed key. */
  function Del(b: Bound, store: Store, key: string): (r: Store)
    ensures StoreKey(b, key) !in r
    ensures forall k :: k != StoreKey(b, key) ==> (k in r <==> k in store)
    ensures forall k :: k in r ==> r[k] == store[k]
  {
    store - {StoreKey(b, key)}
  }

  /** `put(key, value)`: an `undefined` value deletes the key instead. */
  function Put(b: Bound, store: Store, key: string, value: Arg): (r: Store)
    ensures value.Defined? ==> StoreKey(b, key) in r && r[StoreKey(b, key)] == value.v
    ensures value.Undefined? ==> StoreKey(b, key) !in r
    ensures forall k :: k != StoreKey(b, key) ==> (k in r <==> k in store)
    ensures forall k :: k in r && k != StoreKey(b, key) ==> r[k] == store[k]
  {
    match value
    case Undefined => Del(b, store, key)
    case Defined(v) => store[StoreKey(b, key) := v]
  }

  /** `clear()`: localforage's `clear`, which empties the whole store. */
  function Clear(b: Bound, store: Store): (r: Store)
    ensures forall k :: k !in r
  {
    map[]
  }

  /**
   * The two-step lookup of `get` amounts to a plain map lookup: the stored
   * value when the prefixed key is present, `NotFoundError` otherwise.
   */
  lemma GetIsLookup(b: Bound, store: Store, key: string)
    ensures var k := StoreKey(b, key);
            Get(b, store, key) == if k in store then Ok(store[k])
                                  else Err(NotFoundError("No value found for " + k))
  {
  }

  /** A stored `null` is returned as `null`, not reported missing. */
  lemma GetStoredNull(b: Bound, store: Store, key: string)
    requires StoreKey(b, key) in store && store[StoreKey(b, key)] == Null
    ensures Get(b, store, key) == Ok(Null)
  {
  }

  /** `put(key, undefined)` is `del(key)`. */
  lemma PutUndefinedIsDel(b: Bound, store: Store, key: string)
    ensures Put(b, store, key, Undefined) == Del(b, store, key)
  {
  }

  /** Reading back what was put, `null` included. */
  lemma GetAfterPut(b: Bound, store: Store, key: string, v: Value)
    ensures Get(b, Put(b, store, key, Defined(v)), key) == Ok(v)
  {
  }

  /** Reading a deleted key reports it missing. */
  lemma GetAfterDel(b: Bound, store: Store, key: string)
    ensures Get(b, Del(b, store, key), key) == Err(NotFoundError("No value found for " + StoreKey(b, key)))
  {
  }

  /** A write through one binding is invisible through any other store key. */
  lemma PutFrame(b: Bound, store: Store, key: string, value: Arg, b': Bound, key': string)
    requires StoreKey(b', key') != StoreKey(b, key)
    ensures Get(b', Put(b, store, key, value), key') == Get(b', store, key')
  {
  }

  /**
   * Namespaces are not isolated: the binding of "a/b" and the binding of "a"
   * address the same store key for keys "c" and "b/c".
   */
  lemma NamespacesCollide(store: Store, v: Value)
    ensures StoreKey(Bound("a/b"), "c") == StoreKey(Bound("a"), "b/c")
    ensures Get(Bound("a"), Put(Bound("a/b"), store, "c", Defined(v)), "b/c") == Ok(v)
  {
    assert StoreKey(Bound("a/b"), "c") == "a/b/c";
    assert StoreKey(Bound("a"), "b/c") == "a/b/c";
  }

  /** `clear` through any binding empties every namespace. */
  lemma ClearEmptiesAllNamespaces(b: Bound, store: Store, b': Bound, key: string)
    ensures Get(b', Clear(b, store), key).Err?
    ensures Get(b', Clear(b, store), key).error.NotFoundError?
  {
  }
}
