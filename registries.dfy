/**
 * The instance-type registry (`VmTypes.Registry`) and the static operations built on it
 * (`VmTypes.lookup`, `VmTypes.update`, `VmTypes.list`, `VmTypes.listEnabled`).
 *
 * On every use the registry first runs `initialize`, which, on first use or whenever the
 * number of cached types differs from the number of built-in rows, reads every built-in
 * name through the cache, seeding it from the database or from the built-in table.
 */
module Registries {
  import opened Wrappers
  import opened InstanceTypes
  import Catalog
  import Snapshots
  import opened PersistentMaps

  /** The type used when a request names none (`DEFAULT_TYPE_NAME`, initially "t2.micro"). */
  const DEFAULT_TYPE_NAME: string := "t2.micro"

  /** Whether the registry's reference has been marked, and its map. */
  datatype RegState = RegState(initialized: bool, store: Store)

  /** Every built-in name is cached. */
  predicate CatalogCached(st: Store) {
    Catalog.CatalogNames() <= st.cache.Keys
  }

  /**
   * The cache either holds the whole built-in table, or holds built-in names only (a
   * seeding that stopped half-way): types of other names are only added after a seeding
   * that completed.
   */
  predicate Grounded(st: Store) {
    CatalogCached(st) || st.cache.Keys <= Catalog.CatalogNames()
  }

  function RowNames(ts: seq<Catalog.PredefinedType>): set<string> {
    set t | t in ts :: t.name
  }

  /**
   * The seeding loop of `initialize`: `vmTypeMap.get(row.getName())` for every row in order;
   * the first failure ends the loop and the call.
   */
  function SeedRows(st: Store, ts: seq<Catalog.PredefinedType>, dbUp: bool): (r: (Outcome<Fault>, Store))
    ensures forall k :: k in st.cache ==> k in r.1.cache && r.1.cache[k] == st.cache[k]
    ensures st.cache.Keys <= r.1.cache.Keys <= st.cache.Keys + RowNames(ts)
    ensures r.0.Pass? ==> RowNames(ts) <= r.1.cache.Keys
    ensures Coherent(st) ==> Coherent(r.1)
    ensures r.0.Fail? ==> !r.0.error.NoSuchMetadata?
    decreases |ts|
  {
    if ts == [] then (Pass, st)
    else
      var (got, st1) := ReadThrough(st, ts[0].name, dbUp);
      assert RowNames(ts) == {ts[0].name} + RowNames(ts[1..]) by {
        assert ts == [ts[0]] + ts[1..];
      }
      if got.Failure? then (Fail(got.error), st1)
      else SeedRows(st1, ts[1..], dbUp)
  }

  /** `Registry.initialize()`, run sequentially: the reference is marked, then the seeding runs if it must. */
  function Initialized(rs: RegState, dbUp: bool): (r: (Outcome<Fault>, RegState))
    ensures r.1.initialized
    ensures r.0.Fail? ==> !r.0.error.NoSuchMetadata?
    ensures r.0.Pass? && Grounded(rs.store) ==> CatalogCached(r.1.store)
    ensures Coherent(rs.store) ==> Coherent(r.1.store)
    ensures Grounded(rs.store) ==> Grounded(r.1.store)
    ensures forall k :: k in rs.store.cache ==> k in r.1.store.cache && r.1.store.cache[k] == rs.store.cache[k]
  {
    if !rs.initialized || |rs.store.cache| != |Catalog.PREDEFINED| then
      SeedingGrounded(rs.store, Catalog.PREDEFINED, dbUp);
      var (o, st) := SeedRows(rs.store, Catalog.PREDEFINED, dbUp);
      (o, RegState(true, st))
    else
      assert Grounded(rs.store) ==> CatalogCached(rs.store) by {
        if Grounded(rs.store) && !CatalogCached(rs.store) {
          Catalog.CatalogNamesCount();
          SameSizeSubset(rs.store.cache.Keys, Catalog.CatalogNames());
        }
      }
      (Pass, rs)
  }

  /** A seeding over the whole table caches all of it when it passes, and keeps the cache grounded. */
  lemma SeedingGrounded(st: Store, ts: seq<Catalog.PredefinedType>, dbUp: bool)
    requires ts == Catalog.PREDEFINED
    ensures var r := SeedRows(st, ts, dbUp);
      (r.0.Pass? ==> CatalogCached(r.1)) && (Grounded(st) ==> Grounded(r.1))
  {
    assert RowNames(ts) == Catalog.CatalogNames();
  }

  /** A subset of a finite set that is as large as the set is the set. */
  lemma SameSizeSubset(a: set<string>, b: set<string>)
    requires a <= b && |a| == |b|
    ensures a == b
  {
    if a != b {
      var x :| x in b && x !in a;
      SubsetNoLarger(a, b - {x});
    }
  }

  lemma {:induction false} SubsetNoLarger(a: set<string>, c: set<string>)
    requires a <= c
    ensures |a| <= |c|
    decreases |a|
  {
    if a != {} {
      var y :| y in a;
      SubsetNoLarger(a - {y}, c - {y});
    }
  }

  /**
   * `Registry.get(name)`: initialize, substitute the default name for a missing one, and answer
   * only from the cache: a name that is not cached fails with `NoSuchMetadataException`.
   */
  function RegGet(rs: RegState, name: Option<string>, dbUp: bool): (r: (Result<VmType, Fault>, RegState))
    ensures r.1 == Initialized(rs, dbUp).1
    ensures r.0.Success? ==> Initialized(rs, dbUp).0.Pass?
    ensures var n := name.GetOr(DEFAULT_TYPE_NAME);
      r.0.Success? ==> n in r.1.store.cache && r.0.value == r.1.store.cache[n]
    ensures var n := name.GetOr(DEFAULT_TYPE_NAME);
      r.0 == Failure(NoSuchMetadata(n)) <==> Initialized(rs, dbUp).0.Pass? && n !in r.1.store.cache
    ensures var n := name.GetOr(DEFAULT_TYPE_NAME);
      Initialized(rs, dbUp).0.Pass? && n in r.1.store.cache ==> r.0 == Success(r.1.store.cache[n])
    ensures Initialized(rs, dbUp).0.Fail? ==> r.0 == Failure(Initialized(rs, dbUp).0.error)
  {
    var (o, rs1) := Initialized(rs, dbUp);
    if o.Fail? then (Failure(o.error), rs1)
    else
      var n := name.GetOr(DEFAULT_TYPE_NAME);
      if n !in rs1.store.cache then (Failure(NoSuchMetadata(n)), rs1)
      else (ReadThrough(rs1.store, n, dbUp).0, rs1)
  }

  /** `Registry.putIfAbsent(vmType)`: initialize, then `vmTypeMap.putIfAbsent(name, vmType)`. */
  function RegPutIfAbsent(rs: RegState, v: VmType, dbUp: bool): (r: (Result<Option<VmType>, Fault>, RegState))
    ensures r.1.initialized
    ensures r.0 == Success(None) ==> v.name in r.1.store.cache && r.1.store.cache[v.name] == v
    ensures r.0.Success? && r.0.value.Some? ==> r.1 == Initialized(rs, dbUp).1
    ensures var (o, rs1) := Initialized(rs, dbUp);
      o.Fail? ==> r == (Failure(o.error), rs1)
    ensures var (o, rs1) := Initialized(rs, dbUp);
      o.Pass? && v.name in rs1.store.cache ==> r == (Success(Some(rs1.store.cache[v.name])), rs1)
    ensures var (o, rs1) := Initialized(rs, dbUp);
      o.Pass? && v.name !in rs1.store.cache ==>
        if dbUp then
          r == (Success(None), RegState(true, Store(rs1.store.cache[v.name := v], rs1.store.rows[v.name := v])))
        else r == (Failure(PersistenceFailure(v.name)), rs1)
    ensures Coherent(rs.store) && Grounded(rs.store) ==> Coherent(r.1.store) && Grounded(r.1.store)
  {
    var (o, rs1) := Initialized(rs, dbUp);
    if o.Fail? then (Failure(o.error), rs1)
    else
      var (p, st) := StoredIfAbsent(rs1.store, v.name, v, dbUp);
      (p, RegState(true, st))
  }

  /** `Registry.replace(newVmType)`: initialize, then `vmTypeMap.replace(name, newVmType)`. */
  function RegReplaced(rs: RegState, v: VmType, dbUp: bool): (r: (Outcome<Fault>, RegState))
    ensures r.1.initialized
    ensures r.1.store.cache.Keys == Initialized(rs, dbUp).1.store.cache.Keys
    ensures r.0.Pass? && v.name in r.1.store.cache && dbUp ==> r.1.store.cache[v.name] == v
    ensures var (o, rs1) := Initialized(rs, dbUp);
      o.Fail? ==> r == (o, rs1)
    ensures var (o, rs1) := Initialized(rs, dbUp);
      o.Pass? && v.name !in rs1.store.cache ==> r == (Pass, rs1)
    ensures var (o, rs1) := Initialized(rs, dbUp);
      o.Pass? && v.name in rs1.store.cache ==>
        if dbUp then
          r == (Pass, RegState(true, Store(rs1.store.cache[v.name := v], rs1.store.rows[v.name := v])))
        else r == (Fail(PersistenceFailure(v.name)), rs1)
    ensures Coherent(rs.store) && Grounded(rs.store) ==> Coherent(r.1.store) && Grounded(r.1.store)
  {
    var (o, rs1) := Initialized(rs, dbUp);
    if o.Fail? then (o, rs1)
    else
      var (p, st) := Replaced(rs1.store, v.name, v, dbUp);
      assert Grounded(rs1.store) ==> Grounded(st) by {
        assert st.cache.Keys == rs1.store.cache.Keys;
      }
      (if p.Failure? then Fail(p.error) else Pass, RegState(true, st))
  }

  /**
   * `VmTypes.update(newVmType)`: looks the name up, which throws for a name that is not
   * cached; otherwise replaces the entry and returns what is then cached under the name.
   */
  function Updated(rs: RegState, v: VmType, dbUp: bool): (r: (Result<VmType, Fault>, RegState))
    ensures Coherent(rs.store) && Grounded(rs.store) ==> Coherent(r.1.store) && Grounded(r.1.store)
    ensures r.0.Success? ==> v.name in r.1.store.cache && r.1.store.cache[v.name] == r.0.value
    ensures r.0.Success? && Grounded(rs.store) ==> CatalogCached(r.1.store) && r.1.initialized
  {
    var (found, rs1) := RegGet(rs, Some(v.name), dbUp);
    if found.Failure? then (Failure(found.error), rs1)
    else
      var (o, rs2) := RegReplaced(rs1, v, dbUp);
      if o.Fail? then (Failure(o.error), rs2)
      else RegGet(rs2, Some(v.name), dbUp)
  }

  /**
   * The reconciliation branch of `initialize`: every built-in name that is not cached is put
   * with the type the table seeds it with; the first failure ends the loop.
   */
  function ReconcileRows(st: Store, ts: seq<Catalog.PredefinedType>, dbUp: bool): (r: (Outcome<Fault>, Store))
    ensures forall k :: k in st.cache ==> k in r.1.cache && r.1.cache[k] == st.cache[k]
    ensures st.cache.Keys <= r.1.cache.Keys <= st.cache.Keys + RowNames(ts)
    ensures r.0.Pass? ==> RowNames(ts) <= r.1.cache.Keys
    ensures forall k :: k in r.1.cache && k !in st.cache ==> r.1.cache[k] in SeedsOf(ts)
    ensures Coherent(st) ==> Coherent(r.1)
    decreases |ts|
  {
    if ts == [] then (Pass, st)
    else
      assert RowNames(ts) == {ts[0].name} + RowNames(ts[1..]) by {
        assert ts == [ts[0]] + ts[1..];
      }
      assert forall t :: t in ts[1..] ==> t in ts;
      if ts[0].name in st.cache then ReconcileRows(st, ts[1..], dbUp)
      else
        var (p, st1) := StoredIfAbsent(st, ts[0].name, Catalog.Seed(ts[0]), dbUp);
        if p.Failure? then (Fail(p.error), st1)
        else ReconcileRows(st1, ts[1..], dbUp)
  }

  /** The types the rows seed the registry with. */
  function SeedsOf(ts: seq<Catalog.PredefinedType>): set<VmType> {
    set t | t in ts :: Catalog.Seed(t)
  }

  /** `initialize`'s second branch taken by a registry that is already marked. */
  function Reconciled(rs: RegState, dbUp: bool): (r: (Outcome<Fault>, RegState))
    requires rs.initialized
    ensures r.1.initialized
    ensures forall k :: k in rs.store.cache ==> k in r.1.store.cache && r.1.store.cache[k] == rs.store.cache[k]
    ensures forall k :: k in r.1.store.cache && k !in rs.store.cache ==>
      r.1.store.cache[k] in SeedsOf(Catalog.PREDEFINED)
    ensures r.0.Pass? && |rs.store.cache| != |Catalog.PREDEFINED| ==> CatalogCached(r.1.store)
    ensures Coherent(rs.store) && Grounded(rs.store) ==> Coherent(r.1.store) && Grounded(r.1.store)
  {
    if |rs.store.cache| != |Catalog.PREDEFINED| then
      var (o, st) := ReconcileRows(rs.store, Catalog.PREDEFINED, dbUp);
      (o, RegState(true, st))
    else
      (Pass, rs)
  }

  // ---- Seeding ----

  /** With the database up, a seeding over rows whose names all have a constant completes. */
  lemma {:induction false} SeedRowsResolvable(st: Store, ts: seq<Catalog.PredefinedType>)
    requires forall k :: 0 <= k < |ts| ==> Catalog.ValueOf(Catalog.ConstantKey(ts[k].name)).Some?
    ensures SeedRows(st, ts, true).0 == Pass
    decreases |ts|
  {
    if ts != [] {
      assert Catalog.ValueOf(Catalog.ConstantKey(ts[0].name)).Some?;
      var st1 := ReadThrough(st, ts[0].name, true).1;
      assert forall k :: 0 <= k < |ts[1..]| ==> ts[1..][k] == ts[k + 1];
      SeedRowsResolvable(st1, ts[1..]);
    }
  }

  /** With the database up, every built-in name reads through, so seeding completes. */
  lemma SeedRowsWhenUp(st: Store)
    ensures SeedRows(st, Catalog.PREDEFINED, true).0 == Pass
  {
    Catalog.CatalogResolvable();
    SeedRowsResolvable(st, Catalog.PREDEFINED);
  }

  /** With the database down nothing changes, and the seeding passes only if every name is already cached. */
  lemma {:induction false} SeedRowsWhenDown(st: Store, ts: seq<Catalog.PredefinedType>)
    ensures SeedRows(st, ts, false).1 == st
    ensures SeedRows(st, ts, false).0.Pass? <==> RowNames(ts) <= st.cache.Keys
    decreases |ts|
  {
    if ts != [] {
      assert RowNames(ts) == {ts[0].name} + RowNames(ts[1..]) by {
        assert ts == [ts[0]] + ts[1..];
      }
      SeedRowsWhenDown(st, ts[1..]);
    }
  }

  /** When every name is cached already, seeding passes and changes nothing. */
  lemma {:induction false} SeedRowsCached(st: Store, ts: seq<Catalog.PredefinedType>, dbUp: bool)
    requires RowNames(ts) <= st.cache.Keys
    ensures SeedRows(st, ts, dbUp) == (Pass, st)
    decreases |ts|
  {
    if ts != [] {
      assert RowNames(ts) == {ts[0].name} + RowNames(ts[1..]) by {
        assert ts == [ts[0]] + ts[1..];
      }
      SeedRowsCached(st, ts[1..], dbUp);
    }
  }

  /** A resolution depends on the database only through the row of the name resolved. */
  lemma ResolveSameRow(rows1: map<string, VmType>, rows2: map<string, VmType>, k: string, dbUp: bool)
    requires k in rows1 <==> k in rows2
    requires k in rows1 ==> rows1[k] == rows2[k]
    ensures Resolve(rows1, k, dbUp) == Resolve(rows2, k, dbUp)
  {
  }

  /** A name the seeding caches holds what the resolver gives for it against the database as it was. */
  lemma {:induction false} SeedRowsValue(st: Store, ts: seq<Catalog.PredefinedType>, dbUp: bool, k: string)
    requires k !in st.cache && k in SeedRows(st, ts, dbUp).1.cache
    ensures Resolve(st.rows, k, dbUp).Success?
    ensures SeedRows(st, ts, dbUp).1.cache[k] == Resolve(st.rows, k, dbUp).value
    decreases |ts|
  {
    var (got, st1) := ReadThrough(st, ts[0].name, dbUp);
    if got.Success? && ts[0].name != k {
      ResolveSameRow(st.rows, st1.rows, k, dbUp);
      SeedRowsValue(st1, ts[1..], dbUp, k);
    }
  }

  /** An uncached built-in name is seeded with its persisted row if there is one, else with the table's row. */
  lemma SeededValue(st: Store, i: nat)
    requires i < |Catalog.PREDEFINED|
    requires Catalog.PREDEFINED[i].name !in st.cache
    ensures var t := Catalog.PREDEFINED[i];
      var seeded := SeedRows(st, Catalog.PREDEFINED, true).1;
      t.name in seeded.cache &&
      seeded.cache[t.name] == if t.name in st.rows then st.rows[t.name] else Catalog.Seed(t)
  {
    var t := Catalog.PREDEFINED[i];
    SeedRowsWhenUp(st);
    assert t.name in RowNames(Catalog.PREDEFINED);
    SeedRowsValue(st, Catalog.PREDEFINED, true, t.name);
    Catalog.ValueOfCatalogName(i);
  }

  /**
   * A built-in name neither cached nor persisted is seeded with the table's row, enabled exactly
   * when the name is in the "t2." or "m5." family.
   */
  lemma SeededFromTable(st: Store, i: nat)
    requires i < |Catalog.PREDEFINED|
    requires Catalog.PREDEFINED[i].name !in st.cache && Catalog.PREDEFINED[i].name !in st.rows
    ensures var t := Catalog.PREDEFINED[i];
      var seeded := SeedRows(st, Catalog.PREDEFINED, true).1;
      t.name in seeded.cache && seeded.cache[t.name] == Catalog.Seed(t) &&
      (seeded.cache[t.name].enabled <==> Catalog.DefaultEnable(t))
  {
    SeededValue(st, i);
  }

  // ---- Initialization ----

  /** With the database up, `initialize` passes and every built-in name is cached afterwards. */
  lemma InitializeWhenUp(rs: RegState)
    requires Grounded(rs.store)
    ensures Initialized(rs, true).0 == Pass
    ensures CatalogCached(Initialized(rs, true).1.store)
  {
    SeedRowsWhenUp(rs.store);
  }

  /** Once `initialize` has passed, running it again passes at once and changes nothing. */
  lemma InitializeIdempotent(rs: RegState, dbUp: bool, dbUpAgain: bool)
    requires Grounded(rs.store)
    requires Initialized(rs, dbUp).0.Pass?
    ensures var rs1 := Initialized(rs, dbUp).1;
      Initialized(rs1, dbUpAgain) == (Pass, rs1)
  {
    var rs1 := Initialized(rs, dbUp).1;
    SeedRowsCached(rs1.store, Catalog.PREDEFINED, dbUpAgain);
  }

  /** With the database up, reconciliation completes the built-in table. */
  lemma {:induction false} ReconcileWhenUp(st: Store, ts: seq<Catalog.PredefinedType>)
    ensures ReconcileRows(st, ts, true).0 == Pass
    decreases |ts|
  {
    if ts != [] {
      if ts[0].name in st.cache {
        ReconcileWhenUp(st, ts[1..]);
      } else {
        ReconcileWhenUp(StoredIfAbsent(st, ts[0].name, Catalog.Seed(ts[0]), true).1, ts[1..]);
      }
    }
  }

  // ---- Lookup and update ----

  /**
   * On a registry that has never been used, over any database keyed by name, a lookup of every
   * built-in name succeeds with the database up: it returns the persisted row when there is
   * one, and the type seeded from the table otherwise.
   */
  lemma FreshLookupSucceeds(persisted: map<string, VmType>, i: nat)
    requires Keyed(persisted)
    requires i < |Catalog.PREDEFINED|
    ensures var t := Catalog.PREDEFINED[i];
      var (r, _) := RegGet(RegState(false, Store(map[], persisted)), Some(t.name), true);
      r.Success? && r.value == if t.name in persisted then persisted[t.name] else Catalog.Seed(t)
  {
    var rs := RegState(false, Store(map[], persisted));
    var t := Catalog.PREDEFINED[i];
    InitializeWhenUp(rs);
    var seeded := SeedRows(rs.store, Catalog.PREDEFINED, true).1;
    assert Initialized(rs, true) == (Pass, RegState(true, seeded));
    SeededValue(rs.store, i);
  }

  /** On a registry that has never been used, a request naming no type gets the default type. */
  lemma FreshDefaultLookup(persisted: map<string, VmType>)
    requires Keyed(persisted)
    ensures var (r, _) := RegGet(RegState(false, Store(map[], persisted)), None, true);
      r.Success? && r.value.name == DEFAULT_TYPE_NAME
  {
    assert Catalog.PREDEFINED[6].name == DEFAULT_TYPE_NAME;
    FreshLookupSucceeds(persisted, 6);
  }

  /** On a registry whose table is cached, a request naming no type gets the default type. */
  lemma DefaultLookup(rs: RegState, dbUp: bool)
    requires Coherent(rs.store) && CatalogCached(rs.store)
    ensures var (r, _) := RegGet(rs, None, dbUp);
      r.Success? && r.value.name == DEFAULT_TYPE_NAME
  {
    assert Catalog.PREDEFINED[6].name == DEFAULT_TYPE_NAME;
    assert DEFAULT_TYPE_NAME in Catalog.CatalogNames();
    SeedRowsCached(rs.store, Catalog.PREDEFINED, dbUp);
  }

  /** `update` of a cached name: the entry is replaced, persisted, and the new type returned. */
  lemma UpdateReplaces(rs: RegState, v: VmType)
    requires Coherent(rs.store) && CatalogCached(rs.store)
    requires v.name in rs.store.cache
    ensures Updated(rs, v, true) ==
      (Success(v), RegState(true, Store(rs.store.cache[v.name := v], rs.store.rows[v.name := v])))
  {
    var rs1 := rs.(initialized := true);
    var rs2 := RegState(true, Store(rs.store.cache[v.name := v], rs.store.rows[v.name := v]));
    InitializeWhenCached(rs, true);
    assert RegGet(rs, Some(v.name), true).1 == rs1;
    InitializeWhenCached(rs1, true);
    assert Replaced(rs1.store, v.name, v, true) == (Success(Some(rs.store.cache[v.name])), rs2.store);
    assert RegReplaced(rs1, v, true) == (Pass, rs2);
    InitializeWhenCached(rs2, true);
    assert RegGet(rs2, Some(v.name), true) == (Success(v), rs2);
  }

  /** `update` of a name that is not cached raises NoSuchMetadata and inserts nothing. */
  lemma UpdateUncachedFails(rs: RegState, v: VmType, dbUp: bool)
    requires CatalogCached(rs.store)
    requires v.name !in rs.store.cache
    ensures Updated(rs, v, dbUp) == (Failure(NoSuchMetadata(v.name)), rs.(initialized := true))
  {
    SeedRowsCached(rs.store, Catalog.PREDEFINED, dbUp);
  }

  /** On a registry whose table is cached, `initialize` passes at once and only marks the reference. */
  lemma InitializeWhenCached(rs: RegState, dbUp: bool)
    requires CatalogCached(rs.store)
    ensures Initialized(rs, dbUp) == (Pass, rs.(initialized := true))
  {
    SeedRowsCached(rs.store, Catalog.PREDEFINED, dbUp);
  }

  /** After a successful update, looking the name up returns the updated type and changes nothing. */
  lemma LookupAfterUpdate(rs: RegState, v: VmType, dbUp: bool, dbUpAgain: bool)
    requires Coherent(rs.store) && Grounded(rs.store)
    requires Updated(rs, v, dbUp).0.Success?
    ensures var (u, rs1) := Updated(rs, v, dbUp);
      RegGet(rs1, Some(v.name), dbUpAgain) == (u, rs1)
  {
    var rs1 := Updated(rs, v, dbUp).1;
    InitializeWhenCached(rs1, dbUpAgain);
  }

  /** A successful update stores the given type itself, which is what it returns. */
  lemma UpdateStoresValue(rs: RegState, v: VmType, dbUp: bool)
    requires Coherent(rs.store) && Grounded(rs.store)
    requires Updated(rs, v, dbUp).0.Success?
    ensures var (u, rs1) := Updated(rs, v, dbUp);
      u == Success(v) && rs1.store.rows[v.name] == v && rs1.initialized
  {
    var (found, rs1) := RegGet(rs, Some(v.name), dbUp);
    assert found.Success?;
    assert CatalogCached(rs1.store) && Coherent(rs1.store);
    InitializeWhenCached(rs1, dbUp);
    var (o, rs2) := RegReplaced(rs1, v, dbUp);
    assert o.Pass?;
    assert dbUp;
    assert rs2 == RegState(true, Store(rs1.store.cache[v.name := v], rs1.store.rows[v.name := v]));
    InitializeWhenCached(rs2, dbUp);
    assert Updated(rs, v, dbUp) == RegGet(rs2, Some(v.name), dbUp);
  }

  /** Updating twice with the same type is the same as updating once. */
  lemma UpdateIdempotent(rs: RegState, v: VmType, dbUp: bool)
    requires Coherent(rs.store) && Grounded(rs.store)
    requires Updated(rs, v, dbUp).0.Success?
    ensures var (u, rs1) := Updated(rs, v, dbUp);
      Updated(rs1, v, true) == (u, rs1)
  {
    UpdateStoresValue(rs, v, dbUp);
    var rs1 := Updated(rs, v, dbUp).1;
    UpdateSameValue(rs1, v);
  }

  /** Updating a cached, persisted type with itself changes nothing and returns it. */
  lemma UpdateSameValue(rs: RegState, v: VmType)
    requires rs.initialized && Coherent(rs.store) && CatalogCached(rs.store)
    requires v.name in rs.store.cache && rs.store.cache[v.name] == v
    ensures Updated(rs, v, true) == (Success(v), rs)
  {
    assert rs.store.cache[v.name := v] == rs.store.cache;
    assert rs.store.rows[v.name := v] == rs.store.rows;
    InitializeWhenCached(rs, true);
    assert RegGet(rs, Some(v.name), true) == (Success(v), rs);
    assert Replaced(rs.store, v.name, v, true) == (Success(Some(v)), rs.store);
    assert RegReplaced(rs, v, true) == (Pass, rs);
  }

  /** A map keyed by name never holds two types of the same name. */
  lemma KeyedDistinct(m: map<string, VmType>)
    requires Keyed(m)
    ensures Snapshots.DistinctNames(m.Values)
    ensures Snapshots.DistinctNames(Snapshots.EnabledOf(m.Values))
  {
    forall a, b | a in m.Values && b in m.Values && a.name == b.name
      ensures a == b
    {
      var ka :| ka in m && m[ka] == a;
      var kb :| kb in m && m[kb] == b;
    }
  }

  /**
   * `VmTypes.Registry`: the map and the marked reference. The reference's two states are
   * `initialized`; the compare-and-set is the sequential test-and-set below.
   */
  class Registry {
    const vmTypeMap: PersistentMap
    var initialized: bool

    ghost predicate Valid()
      reads this, vmTypeMap
    {
      Coherent(vmTypeMap.State()) && Grounded(vmTypeMap.State())
    }

    function State(): RegState
      reads this, vmTypeMap
    {
      RegState(initialized, vmTypeMap.State())
    }

    /** A registry over a database holding `persisted`, not yet initialized and with an empty cache. */
    constructor(persisted: map<string, VmType>)
      requires Keyed(persisted)
      ensures Valid() && fresh(vmTypeMap)
      ensures State() == RegState(false, Store(map[], persisted))
    {
      vmTypeMap := new PersistentMap(persisted);
      initialized := false;
    }

    /** `Registry.initialize()`. */
    method Initialize(dbUp: bool) returns (r: Outcome<Fault>)
      requires Valid()
      modifies this, vmTypeMap
      ensures Valid()
      ensures (r, State()) == Initialized(old(State()), dbUp)
    {
      var firstUse := !initialized;
      initialized := true;
      if firstUse || |vmTypeMap.cache| != |Catalog.PREDEFINED| {
        r := ReadAll(Catalog.PREDEFINED, dbUp);
      } else {
        r := Pass;
      }
    }

    /** The seeding loop of `initialize`: `vmTypeMap.get(row.getName())` for every row in order. */
    method ReadAll(ts: seq<Catalog.PredefinedType>, dbUp: bool) returns (r: Outcome<Fault>)
      modifies vmTypeMap
      ensures (r, vmTypeMap.State()) == SeedRows(old(vmTypeMap.State()), ts, dbUp)
    {
      var i := 0;
      while i < |ts|
        invariant 0 <= i <= |ts|
        invariant SeedRows(old(vmTypeMap.State()), ts, dbUp) == SeedRows(vmTypeMap.State(), ts[i..], dbUp)
      {
        assert ts[i..][1..] == ts[i + 1..];
        var got := vmTypeMap.Get(ts[i].name, dbUp);
        if got.Failure? {
          return Fail(got.error);
        }
        i := i + 1;
      }
      r := Pass;
    }

    /** The reconciliation branch of `Registry.initialize()`, on a registry already marked. */
    method Reconcile(dbUp: bool) returns (r: Outcome<Fault>)
      requires Valid() && initialized
      modifies vmTypeMap
      ensures Valid()
      ensures (r, State()) == Reconciled(old(State()), dbUp)
    {
      if |vmTypeMap.cache| != |Catalog.PREDEFINED| {
        r := PutAllAbsent(Catalog.PREDEFINED, dbUp);
      } else {
        r := Pass;
      }
    }

    /** The reconciliation loop: every row whose name is not cached is put with the type it seeds. */
    method PutAllAbsent(ts: seq<Catalog.PredefinedType>, dbUp: bool) returns (r: Outcome<Fault>)
      modifies vmTypeMap
      ensures (r, vmTypeMap.State()) == ReconcileRows(old(vmTypeMap.State()), ts, dbUp)
    {
      var i := 0;
      while i < |ts|
        invariant 0 <= i <= |ts|
        invariant ReconcileRows(old(vmTypeMap.State()), ts, dbUp) ==
          ReconcileRows(vmTypeMap.State(), ts[i..], dbUp)
      {
        assert ts[i..][1..] == ts[i + 1..];
        var t := ts[i];
        if t.name !in vmTypeMap.cache {
          var put := vmTypeMap.PutIfAbsent(t.name, Catalog.Seed(t), dbUp);
          if put.Failure? {
            return Fail(put.error);
          }
        }
        i := i + 1;
      }
      r := Pass;
    }

    /** `Registry.get(name)`; `None` stands for a null name. */
    method Get(name: Option<string>, dbUp: bool) returns (r: Result<VmType, Fault>)
      requires Valid()
      modifies this, vmTypeMap
      ensures Valid()
      ensures (r, State()) == RegGet(old(State()), name, dbUp)
    {
      var init := Initialize(dbUp);
      if init.Fail? {
        return Failure(init.error);
      }
      var n := name.GetOr(DEFAULT_TYPE_NAME);
      if n !in vmTypeMap.cache {
        return Failure(NoSuchMetadata(n));
      }
      r := vmTypeMap.Get(n, dbUp);
    }

    /** `Registry.putIfAbsent(vmType)`. */
    method PutIfAbsent(v: VmType, dbUp: bool) returns (r: Result<Option<VmType>, Fault>)
      requires Valid()
      modifies this, vmTypeMap
      ensures Valid()
      ensures (r, State()) == RegPutIfAbsent(old(State()), v, dbUp)
    {
      var init := Initialize(dbUp);
      if init.Fail? {
        return Failure(init.error);
      }
      r := vmTypeMap.PutIfAbsent(v.name, v, dbUp);
    }

    /** `Registry.replace(newVmType)`. */
    method Replace(v: VmType, dbUp: bool) returns (r: Outcome<Fault>)
      requires Valid()
      modifies this, vmTypeMap
      ensures Valid()
      ensures (r, State()) == RegReplaced(old(State()), v, dbUp)
    {
      var init := Initialize(dbUp);
      if init.Fail? {
        return init;
      }
      var replaced := vmTypeMap.Replace(v.name, v, dbUp);
      r := if replaced.Failure? then Fail(replaced.error) else Pass;
    }

    /** `Registry.list()`: the tree set of the cached types. */
    method List(dbUp: bool) returns (r: Result<seq<VmType>, Fault>)
      requires Valid()
      modifies this, vmTypeMap
      ensures Valid()
      ensures State() == Initialized(old(State()), dbUp).1
      ensures r.Failure? <==> Initialized(old(State()), dbUp).0.Fail?
      ensures r.Failure? ==> r.error == Initialized(old(State()), dbUp).0.error
      ensures r.Success? ==> Snapshots.IsSnapshot(r.value, vmTypeMap.cache.Values)
    {
      var init := Initialize(dbUp);
      if init.Fail? {
        return Failure(init.error);
      }
      KeyedDistinct(vmTypeMap.cache);
      var snapshot := Snapshots.NewTreeSet(vmTypeMap.cache.Values);
      r := Success(snapshot);
    }

    /** `Registry.listEnabled()`: the tree set of the cached types that are enabled. */
    method ListEnabled(dbUp: bool) returns (r: Result<seq<VmType>, Fault>)
      requires Valid()
      modifies this, vmTypeMap
      ensures Valid()
      ensures State() == Initialized(old(State()), dbUp).1
      ensures r.Failure? <==> Initialized(old(State()), dbUp).0.Fail?
      ensures r.Failure? ==> r.error == Initialized(old(State()), dbUp).0.error
      ensures r.Success? ==> Snapshots.IsSnapshot(r.value, Snapshots.EnabledOf(vmTypeMap.cache.Values))
    {
      var init := Initialize(dbUp);
      if init.Fail? {
        return Failure(init.error);
      }
      KeyedDistinct(vmTypeMap.cache);
      var snapshot := Snapshots.NewTreeSet(Snapshots.EnabledOf(vmTypeMap.cache.Values));
      r := Success(snapshot);
    }
  }

  /** `VmTypes.lookup(name)`. */
  method Lookup(registry: Registry, name: Option<string>, dbUp: bool) returns (r: Result<VmType, Fault>)
    requires registry.Valid()
    modifies registry, registry.vmTypeMap
    ensures registry.Valid()
    ensures (r, registry.State()) == RegGet(old(registry.State()), name, dbUp)
  {
    r := registry.Get(name, dbUp);
  }

  /**
   * `VmTypes.update(newVmType)`. The lookup either throws or finds the type, so the branch
   * that would insert an unknown type is never taken and is not part of this method.
   */
  method Update(registry: Registry, v: VmType, dbUp: bool) returns (r: Result<VmType, Fault>)
    requires registry.Valid()
    modifies registry, registry.vmTypeMap
    ensures registry.Valid()
    ensures (r, registry.State()) == Updated(old(registry.State()), v, dbUp)
  {
    var found := Lookup(registry, Some(v.name), dbUp);
    if found.Failure? {
      return Failure(found.error);
    }
    var replaced := registry.Replace(v, dbUp);
    if replaced.Fail? {
      return Failure(replaced.error);
    }
    r := registry.Get(Some(v.name), dbUp);
  }
}
