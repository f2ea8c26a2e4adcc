/**
 * The registry's cache (`VmTypes.PersistentMap`): a sorted map from type name to type that
 * loads missing keys through the resolver (`VmTypeResolver`) and writes every update through
 * to the database before caching it.
 *
 * The database is the map `rows` from name to persisted type. Whether it accepts the
 * operations of a call is the parameter `dbUp`: when it is down, loading a row fails, so does
 * persisting one, and nothing is cached.
 */
module PersistentMaps {
  import opened Wrappers
  import opened InstanceTypes
  import Catalog

  /** Every entry is stored under its own name. */
  predicate Keyed(m: map<string, VmType>) {
    forall k :: k in m ==> m[k].name == k
  }

  /** What the cache holds and what the database holds. */
  datatype Store = Store(cache: map<string, VmType>, rows: map<string, VmType>)

  /** Write-through: every cached type is the persisted row for its name. */
  predicate Coherent(st: Store) {
    Keyed(st.cache) && Keyed(st.rows) &&
    forall k :: k in st.cache ==> k in st.rows && st.rows[k] == st.cache[k]
  }

  /**
   * `VmTypeResolver.apply(name)`: the persisted row if there is one; otherwise a new type built
   * from the built-in row whose constant is the name upper-cased without dots, which is then
   * persisted. That lookup fails when no constant matches, and persisting fails when the
   * database is down.
   */
  function Resolve(rows: map<string, VmType>, name: string, dbUp: bool): (r: Result<VmType, Fault>)
    ensures r.Success? ==> dbUp
    ensures r.Failure? ==> !r.error.NoSuchMetadata?
    ensures dbUp && name in rows ==> r == Success(rows[name])
    ensures Keyed(rows) && r.Success? ==> r.value.name == name
    ensures !(dbUp && name in rows) ==>
      (r.Success? <==> dbUp && Catalog.ValueOf(Catalog.ConstantKey(name)).Some?)
    ensures r.Success? && name !in rows ==>
      r.value == Catalog.Create(name, Catalog.ValueOf(Catalog.ConstantKey(name)).value)
  {
    if dbUp && name in rows then
      Success(rows[name])
    else
      var constant := Catalog.ConstantKey(name);
      match Catalog.ValueOf(constant)
      case None => Failure(NoSuchPredefined(constant))
      case Some(t) =>
        if dbUp then Success(Catalog.Create(name, t)) else Failure(PersistenceFailure(name))
  }

  /** The database after a successful resolution: a newly created type is persisted under its name. */
  function Persisted(rows: map<string, VmType>, name: string, v: VmType): map<string, VmType> {
    rows[name := v]
  }

  /** `PersistentMap.get(key)`: read-through; an uncached key is resolved and then cached. */
  function ReadThrough(st: Store, key: string, dbUp: bool): (r: (Result<VmType, Fault>, Store))
    ensures key in st.cache ==> r == (Success(st.cache[key]), st)
    ensures r.0.Success? ==> key in r.1.cache && r.1.cache[key] == r.0.value
    ensures r.0.Failure? ==> r.1 == st
    ensures r.1.cache.Keys == st.cache.Keys + (if r.0.Success? then {key} else {})
    ensures forall k :: k in st.cache ==> k in r.1.cache && r.1.cache[k] == st.cache[k]
    ensures Coherent(st) ==> Coherent(r.1)
    ensures key !in st.cache ==> r.0 == Resolve(st.rows, key, dbUp)
    ensures key !in st.cache && r.0.Success? ==>
      r.1 == Store(st.cache[key := r.0.value], Persisted(st.rows, key, r.0.value))
  {
    if key in st.cache then
      (Success(st.cache[key]), st)
    else
      match Resolve(st.rows, key, dbUp)
      case Failure(e) => (Failure(e), st)
      case Success(v) => (Success(v), Store(st.cache[key := v], Persisted(st.rows, key, v)))
  }

  /**
   * `PersistentMap.put(key, value)`: the value is merged into the database first, then cached;
   * the previously cached value is returned. When the merge fails the map throws and nothing
   * changes.
   */
  function Stored(st: Store, key: string, value: VmType, dbUp: bool): (r: (Result<Option<VmType>, Fault>, Store))
    ensures !dbUp ==> r == (Failure(PersistenceFailure(value.name)), st)
    ensures dbUp ==> r.0 == Success(if key in st.cache then Some(st.cache[key]) else None)
    ensures dbUp ==> r.1.cache == st.cache[key := value] && r.1.rows == st.rows[value.name := value]
    ensures Coherent(st) && key == value.name ==> Coherent(r.1)
  {
    if !dbUp then
      (Failure(PersistenceFailure(value.name)), st)
    else
      var previous := if key in st.cache then Some(st.cache[key]) else None;
      (Success(previous), Store(st.cache[key := value], st.rows[value.name := value]))
  }

  /** `PersistentMap.putIfAbsent(key, value)`: puts an uncached key; otherwise returns the cached value. */
  function StoredIfAbsent(st: Store, key: string, value: VmType, dbUp: bool): (r: (Result<Option<VmType>, Fault>, Store))
    ensures key in st.cache ==> r == (Success(Some(st.cache[key])), st)
    ensures key !in st.cache && dbUp ==>
      r == (Success(None), Store(st.cache[key := value], st.rows[value.name := value]))
    ensures key !in st.cache && !dbUp ==> r == (Failure(PersistenceFailure(value.name)), st)
    ensures r.0.Failure? ==> r.1 == st
    ensures Coherent(st) && key == value.name ==> Coherent(r.1)
  {
    if key !in st.cache then Stored(st, key, value, dbUp)
    else
      var (current, st') := ReadThrough(st, key, dbUp);
      (Success(Some(current.value)), st')
  }

  /** `PersistentMap.replace(key, value)`: puts a cached key; an uncached key is left alone. */
  function Replaced(st: Store, key: string, value: VmType, dbUp: bool): (r: (Result<Option<VmType>, Fault>, Store))
    ensures key !in st.cache ==> r == (Success(None), st)
    ensures r.1.cache.Keys == st.cache.Keys
    ensures key in st.cache && dbUp ==>
      r == (Success(Some(st.cache[key])), Store(st.cache[key := value], st.rows[value.name := value]))
    ensures key in st.cache && !dbUp ==> r == (Failure(PersistenceFailure(value.name)), st)
    ensures r.0.Failure? ==> r.1 == st
    ensures Coherent(st) && key == value.name ==> Coherent(r.1)
  {
    if key in st.cache then Stored(st, key, value, dbUp) else (Success(None), st)
  }

  /** `PersistentMap.replace(key, oldValue, newValue)`: puts only when the cached value is `oldValue`. */
  function ReplacedIf(st: Store, key: string, oldValue: VmType, newValue: VmType, dbUp: bool): (r: (Result<bool, Fault>, Store))
    ensures r.0 == Success(true) <==> key in st.cache && st.cache[key] == oldValue && dbUp
    ensures r.0.Failure? <==> key in st.cache && st.cache[key] == oldValue && !dbUp
    ensures r.0 == Success(true) ==>
      r.1.cache == st.cache[key := newValue] && r.1.rows == st.rows[newValue.name := newValue]
    ensures r.0 != Success(true) ==> r.1 == st
    ensures Coherent(st) && key == newValue.name ==> Coherent(r.1)
  {
    if key in st.cache && ReadThrough(st, key, dbUp).0 == Success(oldValue) then
      var (put, st') := Stored(st, key, newValue, dbUp);
      if put.Failure? then (Failure(put.error), st') else (Success(true), st')
    else
      (Success(false), st)
  }

  /** A successful put is seen by the next get, which changes nothing. */
  lemma PutThenGet(st: Store, key: string, value: VmType, dbUp: bool)
    requires Stored(st, key, value, dbUp).0.Success?
    ensures var st' := Stored(st, key, value, dbUp).1;
      ReadThrough(st', key, dbUp) == (Success(value), st')
  {
  }

  /** Reading a key is idempotent: once it succeeded, reading it again returns the same and changes nothing. */
  lemma ReadThroughIdempotent(st: Store, key: string, dbUp: bool, dbUpAgain: bool)
    requires ReadThrough(st, key, dbUp).0.Success?
    ensures var (r, st') := ReadThrough(st, key, dbUp);
      ReadThrough(st', key, dbUpAgain) == (r, st')
  {
  }

  /** With a coherent store, what a get returns is what the database holds for the key. */
  lemma ReadThroughMatchesRows(st: Store, key: string, dbUp: bool)
    requires Coherent(st)
    requires ReadThrough(st, key, dbUp).0.Success?
    ensures var (r, st') := ReadThrough(st, key, dbUp);
      key in st'.rows && st'.rows[key] == r.value && r.value.name == key
  {
  }

  /**
   * A successful compare-and-replace is seen by the next get, and a second one with the same
   * old value fails unless the new value equals it.
   */
  lemma ReplaceIfThenGet(st: Store, key: string, oldValue: VmType, newValue: VmType, dbUp: bool, dbUpAgain: bool)
    requires ReplacedIf(st, key, oldValue, newValue, dbUp).0 == Success(true)
    ensures var st' := ReplacedIf(st, key, oldValue, newValue, dbUp).1;
      ReadThrough(st', key, dbUpAgain) == (Success(newValue), st') &&
      (ReplacedIf(st', key, oldValue, newValue, dbUpAgain).0 == Success(true) <==> newValue == oldValue && dbUpAgain)
  {
  }

  /**
   * The map itself: `cache` is the backing `ConcurrentSkipListMap`, `rows` the database it
   * writes through to.
   */
  class PersistentMap {
    var cache: map<string, VmType>
    var rows: map<string, VmType>

    function State(): Store
      reads this
    {
      Store(cache, rows)
    }

    /** `PersistentMap.create(VmTypeResolver.INSTANCE)` over a database holding `persisted`. */
    constructor(persisted: map<string, VmType>)
      ensures State() == Store(map[], persisted)
    {
      cache := map[];
      rows := persisted;
    }

    /** The resolver: loads the row, or creates and persists a new type. */
    method Load(key: string, dbUp: bool) returns (r: Result<VmType, Fault>)
      modifies this
      ensures r == Resolve(old(rows), key, dbUp)
      ensures cache == old(cache)
      ensures rows == if r.Success? then Persisted(old(rows), key, r.value) else old(rows)
    {
      r := Resolve(rows, key, dbUp);
      if r.Success? {
        rows := Persisted(rows, key, r.value);
      }
    }

    method Get(key: string, dbUp: bool) returns (r: Result<VmType, Fault>)
      modifies this
      ensures (r, State()) == ReadThrough(old(State()), key, dbUp)
    {
      if key !in cache {
        var loaded := Load(key, dbUp);
        if loaded.Failure? {
          return Failure(loaded.error);
        }
        cache := cache[key := loaded.value];
      }
      r := Success(cache[key]);
    }

    /** The merge into the database, then the cache update. */
    method Put(key: string, value: VmType, dbUp: bool) returns (r: Result<Option<VmType>, Fault>)
      modifies this
      ensures (r, State()) == Stored(old(State()), key, value, dbUp)
    {
      if !dbUp {
        return Failure(PersistenceFailure(value.name));
      }
      rows := rows[value.name := value];
      var previous := if key in cache then Some(cache[key]) else None;
      cache := cache[key := value];
      r := Success(previous);
    }

    method PutIfAbsent(key: string, value: VmType, dbUp: bool) returns (r: Result<Option<VmType>, Fault>)
      modifies this
      ensures (r, State()) == StoredIfAbsent(old(State()), key, value, dbUp)
    {
      if key !in cache {
        r := Put(key, value, dbUp);
      } else {
        var current := Get(key, dbUp);
        r := Success(Some(current.value));
      }
    }

    method Replace(key: string, value: VmType, dbUp: bool) returns (r: Result<Option<VmType>, Fault>)
      modifies this
      ensures (r, State()) == Replaced(old(State()), key, value, dbUp)
    {
      if key in cache {
        r := Put(key, value, dbUp);
      } else {
        r := Success(None);
      }
    }

    method ReplaceIf(key: string, oldValue: VmType, newValue: VmType, dbUp: bool) returns (r: Result<bool, Fault>)
      modifies this
      ensures (r, State()) == ReplacedIf(old(State()), key, oldValue, newValue, dbUp)
    {
      if key in cache {
        var current := Get(key, dbUp);
        if current == Success(oldValue) {
          var put := Put(key, newValue, dbUp);
          if put.Failure? {
            return Failure(put.error);
          }
          return Success(true);
        }
      }
      r := Success(false);
    }
  }
}
