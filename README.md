# Instance-type registry and web session registrar

This project models two parts of the Eucalyptus cloud controller in Dafny:

- **Instance types** (`VmTypes`):
  - the built-in table of instance types (`PredefinedTypes`) and the rule that decides which types are offered by default (`DEFAULT_ENABLE`);
  - the resolver that loads a type from the database or creates it from the table (`VmTypeResolver`);
  - the write-through cache in front of the database (`PersistentMap`);
  - the registry that seeds that cache and answers lookups, listings and updates (`Registry`, `lookup`, `update`, `list`, `listEnabled`);
  - the computation of an instance's disk layout from its type and boot image (`asVmTypeInfo` and its four mappers).
- **Web sessions** (`WebSessionManager`): the web console's map from session id to session. A session older than two weeks is removed the next time it is looked up.

## Structure

Each module sits in its own file.

| module | what it holds |
|---|---|
| `Wrappers` | `Option` (Java `null`), `Result` and `Outcome` (a value or the exception thrown instead) |
| `JavaStrings` | `startsWith`, ASCII upper-casing, removal of dots, and the order of `String.compareTo`, proved a strict total order |
| `InstanceTypes` | Java `int`/`long` as subset types, 64-bit wrap-around, `VmType`, and the exceptions |
| `Catalog` | representative rows of `PredefinedTypes`, `valueOf`, `DEFAULT_ENABLE`, `VmType.create` |
| `Layout` | `asVmTypeInfo` and the mappers |
| `Snapshots` | `Sets.newTreeSet` as a sorted sequence, and the enabled-only filter |
| `PersistentMaps` | the resolver, the cache's operations as functions on a `Store`, and the class `PersistentMap` whose methods are proved against them |
| `Registries` | the registry's operations as functions on a `RegState`, lemmas about them, the class `Registry`, and `Lookup`/`Update` |
| `WebSessions` | the session registrar, as functions and as the class `WebSessionManager` |

### Modelling choices

- **The database.** It is the map `rows` from type name to persisted type.
- **Database availability.** Each call takes a parameter `dbUp`. When it is false:
  - every write fails;
  - the resolver's read fails, so it falls back to creating the type, and persisting that type fails too.
- **Invariants.** Two invariants are kept by every registry method (`Registry.Valid`):
  - `Coherent`: every cached type is the persisted row of its own name, which makes the cache write-through;
  - `Grounded`: the cache holds either the whole built-in table, or built-in names only.
- **The GUID generator and the clock.** They become parameters of the session methods.

### Behaviour worth noting

- **`update` never inserts.** `update` first calls `lookup`, and `lookup` throws `NoSuchMetadataException` for a name that is not cached. So the `putIfAbsent` branch of `update` (VmTypes.java:160-162) is never reached, and updating an unknown name fails. `Registries.UpdateUncachedFails` states this.
- **`lookup` answers from the cache only.** `Registry.get` tests the cache with `containsKey`, which `PersistentMap` does not override. A type persisted under a name outside the built-in table is therefore never visible through `lookup`, even though it is in the database.
- **The reconciliation branch of `initialize` (VmTypes.java:329-345) cannot run when calls are sequential.**
  - The branch is reached only when the compare-and-set fails and the cache size equals the table size.
  - In that case its inner size test is false.
  - It is modelled on its own, as `Registry.Reconcile`, from a state where the reference is already marked.

## Model

Source paths are relative to the repository root.

| member | source | states |
|---|---|---|
| InstanceTypes.Wrap64 | clc/modules/compute-backend/src/main/java/com/eucalyptus/vmtypes/VmTypes.java:584-592 | the result of a `long` operation is congruent to its exact value modulo 2^64, and equals it when it is in range |
| JavaStrings.LessTransitive | clc/modules/compute-backend/src/main/java/com/eucalyptus/vmtypes/VmTypes.java:370-377 | the order of the sorted listings is transitive |
| JavaStrings.LessTotal | clc/modules/compute-backend/src/main/java/com/eucalyptus/vmtypes/VmTypes.java:370-377 | of two different names, one sorts before the other |
| JavaStrings.ToUpper | clc/modules/compute-backend/src/main/java/com/eucalyptus/vmtypes/VmTypes.java:202 | upper-casing keeps the length and every character that is not a lower-case ASCII letter, and leaves no lower-case ASCII letter |
| JavaStrings.RemoveDots | clc/modules/compute-backend/src/main/java/com/eucalyptus/vmtypes/VmTypes.java:202 | removing the dots leaves no dot, never lengthens the string, and keeps only characters of the input |
| Catalog.FindConstant | clc/modules/compute-backend/src/main/java/com/eucalyptus/vmtypes/VmTypes.java:202 | `valueOf` returns a row whose constant is the one asked for, and returns nothing only when no row has it |
| Catalog.ValueOf | clc/modules/compute-backend/src/main/java/com/eucalyptus/vmtypes/VmTypes.java:202 | `valueOf` returns a table row with exactly the given constant, and returns nothing exactly when no row has that constant |
| Catalog.ConstantKey | clc/modules/compute-backend/src/main/java/com/eucalyptus/vmtypes/VmTypes.java:202 | the constant looked up for a name is no longer than the name, has no dot and no lower-case ASCII letter |
| Catalog.DefaultEnable | clc/modules/compute-backend/src/main/java/com/eucalyptus/vmtypes/VmTypes.java:120-121 | a row is enabled by default exactly when its name begins with "t2." or "m5." |
| Catalog.Create | clc/modules/compute-backend/src/main/java/com/eucalyptus/vmtypes/VmTypes.java:203-204 | a created type carries the given name and the row's cpu, disk, memory and network-interface limit, and is enabled exactly when the default rule says so |
| Catalog.CatalogDistinct | clc/modules/compute-backend/src/main/java/com/eucalyptus/vmtypes/VmTypes.java:392-511 | the table's names are pairwise distinct, and so are its constants |
| Catalog.ConstantsMatchNames | clc/modules/compute-backend/src/main/java/com/eucalyptus/vmtypes/VmTypes.java:202 | every row's constant is its name upper-cased with the dots removed |
| Catalog.ValueOfCatalogName | clc/modules/compute-backend/src/main/java/com/eucalyptus/vmtypes/VmTypes.java:202 | the resolver's constant lookup finds each row from that row's name |
| Catalog.CatalogResolvable | clc/modules/compute-backend/src/main/java/com/eucalyptus/vmtypes/VmTypes.java:202 | every row of the table is found from its name |
| Catalog.DefaultEnabledRows | clc/modules/compute-backend/src/main/java/com/eucalyptus/vmtypes/VmTypes.java:120-121 | exactly the "t2." and "m5." rows are enabled by default; "m5d.large" is not |
| Catalog.CatalogNamesCount | clc/modules/compute-backend/src/main/java/com/eucalyptus/vmtypes/VmTypes.java:324 | the table has as many distinct names as rows, the count that `initialize` compares the cache size to |
| Layout.DiskBytes | clc/modules/compute-backend/src/main/java/com/eucalyptus/vmtypes/VmTypes.java:574 | the disk size in bytes is the GiB count times 2^30, and that product never overflows a `long` |
| Layout.InstanceStoreMapper | clc/modules/compute-backend/src/main/java/com/eucalyptus/vmtypes/VmTypes.java:617-628 | the type's name, memory, disk and cpu are copied; the root is "sda1"; swap of 512 MiB goes on "sda3", formatted only when `FORMAT_SWAP` is set |
| Layout.InstanceStoreWindowsMapper | clc/modules/compute-backend/src/main/java/com/eucalyptus/vmtypes/VmTypes.java:630-637 | the type is copied, the root is "sda", and nothing is attached |
| Layout.InstanceStoreLinuxHvmMapper | clc/modules/compute-backend/src/main/java/com/eucalyptus/vmtypes/VmTypes.java:639-646 | the type is copied, the root is "sda", and nothing is attached |
| Layout.BlockStorageMapper | clc/modules/compute-backend/src/main/java/com/eucalyptus/vmtypes/VmTypes.java:648-655 | the type is copied, the root is "sda", and nothing is attached |
| Layout.AsVmTypeInfo | clc/modules/compute-backend/src/main/java/com/eucalyptus/vmtypes/VmTypes.java:572-615 | see the detail after this table |
| Layout.WindowsLayout | clc/modules/compute-backend/src/main/java/com/eucalyptus/vmtypes/VmTypes.java:582-584 | a Windows instance-store image gets one unformatted "sdb" holding the disk minus the image |
| Layout.LinuxHvmLayout | clc/modules/compute-backend/src/main/java/com/eucalyptus/vmtypes/VmTypes.java:585-589 | a Linux image whose root is a whole disk gets "sdb" only when the image leaves room; it is ext3 exactly when `FORMAT_EPHEMERAL_STORAGE` is set |
| Layout.LinuxPvLayout | clc/modules/compute-backend/src/main/java/com/eucalyptus/vmtypes/VmTypes.java:590-606 | a Linux image whose root is a partition fails when disk minus image minus swap is below 61440 bytes; otherwise that remainder goes on "sda2", with swap on "sda3" and the root on "sda1" |
| Layout.BlockStorageLayout | clc/modules/compute-backend/src/main/java/com/eucalyptus/vmtypes/VmTypes.java:607-610 | a block-storage image skips the size check, takes the image's root device and gets an EBS root of the image's size |
| Layout.InstanceStoreAccounting | clc/modules/compute-backend/src/main/java/com/eucalyptus/vmtypes/VmTypes.java:581-606 | for an instance-store image, the image, the ephemeral storage and the swap add up to exactly the type's disk |
| Layout.PvExampleFits | clc/modules/compute-backend/src/main/java/com/eucalyptus/vmtypes/VmTypes.java:590-606 | a 5 GiB image on a 10 GiB disk leaves 4831838208 bytes of ext3 on "sda2" and 512 MiB of unformatted swap |
| Layout.PvExampleInsufficient | clc/modules/compute-backend/src/main/java/com/eucalyptus/vmtypes/VmTypes.java:592-603 | an image that leaves less than the minimal ext partition after the swap is refused |
| Layout.BlockStorageExample | clc/modules/compute-backend/src/main/java/com/eucalyptus/vmtypes/VmTypes.java:607-610 | an 8 GiB block-storage image gets an 8589934592-byte EBS root |
| Snapshots.Insert | clc/modules/compute-backend/src/main/java/com/eucalyptus/vmtypes/VmTypes.java:370-373 | adding to the tree set keeps it sorted and adds the name; a name already present leaves the set unchanged, and a new one adds exactly that element |
| Snapshots.NewTreeSet | clc/modules/compute-backend/src/main/java/com/eucalyptus/vmtypes/VmTypes.java:370-373 | the result is strictly sorted by name, holds only given values and every given name; when names are distinct it holds exactly the given values |
| Snapshots.SortedUnique | clc/modules/compute-backend/src/main/java/com/eucalyptus/vmtypes/VmTypes.java:370-373 | two strictly sorted sequences with the same elements are equal, so the listing is determined by the cached values |
| Snapshots.EnabledOnly | clc/modules/compute-backend/src/main/java/com/eucalyptus/vmtypes/VmTypes.java:375-378 | the filter keeps exactly the enabled elements and keeps a sorted sequence sorted |
| Snapshots.ListEnabledIsFilteredList | clc/modules/compute-backend/src/main/java/com/eucalyptus/vmtypes/VmTypes.java:370-378 | the enabled listing is the full listing with the disabled types dropped |
| PersistentMaps.Resolve | clc/modules/compute-backend/src/main/java/com/eucalyptus/vmtypes/VmTypes.java:185-209 | a reachable database returns the persisted row; otherwise the type is created from the table row found by the name's constant, which fails when there is no such row or the database is down; the result carries the name |
| PersistentMaps.ReadThrough | clc/modules/compute-backend/src/main/java/com/eucalyptus/vmtypes/VmTypes.java:276-283 | a cached key is returned with nothing changed; an uncached key gets exactly the resolver's answer, and on success it is cached and the resolved type persisted under it; a failure changes nothing; no other entry changes; write-through coherence is kept |
| PersistentMaps.Stored | clc/modules/compute-backend/src/main/java/com/eucalyptus/vmtypes/VmTypes.java:285-290 | with the database up, the value is persisted and cached and the previous value returned; with it down, the put fails and nothing changes |
| PersistentMaps.StoredIfAbsent | clc/modules/compute-backend/src/main/java/com/eucalyptus/vmtypes/VmTypes.java:292-299 | a cached key returns its value and changes nothing; for an absent key, with the database up the value is cached and persisted and the answer is `null`, and with it down the put fails and nothing changes |
| PersistentMaps.Replaced | clc/modules/compute-backend/src/main/java/com/eucalyptus/vmtypes/VmTypes.java:301-306 | an uncached key is left alone; for a cached key, with the database up the value is cached and persisted and the old value returned, and with it down the put fails and nothing changes; the cached keys never change |
| PersistentMaps.ReplacedIf | clc/modules/compute-backend/src/main/java/com/eucalyptus/vmtypes/VmTypes.java:308-314 | the result is true exactly when the key is cached with the old value and the database is up, and it is a failure exactly when the key is cached with the old value and the database is down; on true the key is cached and the new value persisted under its name; otherwise nothing changes; coherence is kept when the key is the new value's name |
| PersistentMaps.ReplaceIfThenGet | clc/modules/compute-backend/src/main/java/com/eucalyptus/vmtypes/VmTypes.java:276-314 | after a successful conditional replace, a get returns the new value and changes nothing, and repeating the replace succeeds exactly when the new value equals the old one and the database is up |
| PersistentMaps.PutThenGet | clc/modules/compute-backend/src/main/java/com/eucalyptus/vmtypes/VmTypes.java:276-290 | a successful put is seen by the next get, which changes nothing |
| PersistentMaps.ReadThroughIdempotent | clc/modules/compute-backend/src/main/java/com/eucalyptus/vmtypes/VmTypes.java:276-283 | a second get of a key that was read returns the same and changes nothing, whatever the database does |
| PersistentMaps.ReadThroughMatchesRows | clc/modules/compute-backend/src/main/java/com/eucalyptus/vmtypes/VmTypes.java:276-283 | in a coherent store, a get returns the persisted row of the key, stored under that key |
| PersistentMaps.PersistentMap.Load | clc/modules/compute-backend/src/main/java/com/eucalyptus/vmtypes/VmTypes.java:185-209 | the resolver's result; a created type is persisted and the cache is untouched |
| PersistentMaps.PersistentMap.constructor | clc/modules/compute-backend/src/main/java/com/eucalyptus/vmtypes/VmTypes.java:241-251 | a new map has an empty cache over the given database |
| PersistentMaps.PersistentMap.Get | clc/modules/compute-backend/src/main/java/com/eucalyptus/vmtypes/VmTypes.java:276-283 | result and new state are those of `ReadThrough` |
| PersistentMaps.PersistentMap.Put | clc/modules/compute-backend/src/main/java/com/eucalyptus/vmtypes/VmTypes.java:285-290 | result and new state are those of `Stored` |
| PersistentMaps.PersistentMap.PutIfAbsent | clc/modules/compute-backend/src/main/java/com/eucalyptus/vmtypes/VmTypes.java:292-299 | result and new state are those of `StoredIfAbsent` |
| PersistentMaps.PersistentMap.Replace | clc/modules/compute-backend/src/main/java/com/eucalyptus/vmtypes/VmTypes.java:301-306 | result and new state are those of `Replaced` |
| PersistentMaps.PersistentMap.ReplaceIf | clc/modules/compute-backend/src/main/java/com/eucalyptus/vmtypes/VmTypes.java:308-314 | result and new state are those of `ReplacedIf` |
| Registries.SeedRows | clc/modules/compute-backend/src/main/java/com/eucalyptus/vmtypes/VmTypes.java:324-327 | the seeding loop never changes a cached entry and only adds table names; when it passes, every table name is cached; it keeps coherence |
| Registries.Initialized | clc/modules/compute-backend/src/main/java/com/eucalyptus/vmtypes/VmTypes.java:323-347 | the reference ends marked; cached entries never change; coherence and groundedness are kept; when it passes on a grounded cache, the whole table is cached |
| Registries.RegGet | clc/modules/compute-backend/src/main/java/com/eucalyptus/vmtypes/VmTypes.java:359-368 | the state is the one left by `initialize`; a missing name means the default name; when initialization fails, the call fails with its exception; otherwise a cached name returns its cached type, and the call fails with NoSuchMetadata exactly when the name is not cached |
| Registries.RegPutIfAbsent | clc/modules/compute-backend/src/main/java/com/eucalyptus/vmtypes/VmTypes.java:349-352 | when initialization fails, its exception and state; otherwise a cached name returns its cached type and nothing beyond initialization changes; an uncached name is cached and persisted with a `null` answer when the database is up, and fails with nothing changed when it is down; both invariants are kept |
| Registries.RegReplaced | clc/modules/compute-backend/src/main/java/com/eucalyptus/vmtypes/VmTypes.java:354-357 | when initialization fails, its exception and state; otherwise an uncached name changes nothing, and a cached name is cached and persisted with the new type when the database is up and fails with nothing changed when it is down; both invariants are kept |
| Registries.Updated | clc/modules/compute-backend/src/main/java/com/eucalyptus/vmtypes/VmTypes.java:153-166 | the returned type is the one cached under its name; both invariants are kept |
| Registries.ReconcileRows | clc/modules/compute-backend/src/main/java/com/eucalyptus/vmtypes/VmTypes.java:331-343 | existing entries are never disturbed; only table names are added, each with the type its row seeds; when it passes, every table name is cached |
| Registries.Reconciled | clc/modules/compute-backend/src/main/java/com/eucalyptus/vmtypes/VmTypes.java:329-345 | existing and custom entries are kept; every added entry is a seeded table type; a pass completes the table whenever the sizes differed |
| Registries.SeedRowsResolvable | clc/modules/compute-backend/src/main/java/com/eucalyptus/vmtypes/VmTypes.java:324-327 | with the database up, seeding rows whose names are all in the table completes |
| Registries.SeedRowsWhenUp | clc/modules/compute-backend/src/main/java/com/eucalyptus/vmtypes/VmTypes.java:324-327 | with the database up, seeding the whole table completes, even from an empty cache and an empty database |
| Registries.SeedRowsWhenDown | clc/modules/compute-backend/src/main/java/com/eucalyptus/vmtypes/VmTypes.java:324-327 | with the database down, seeding changes nothing, and passes exactly when every name is already cached |
| Registries.SeedRowsCached | clc/modules/compute-backend/src/main/java/com/eucalyptus/vmtypes/VmTypes.java:324-327 | when every name is cached, seeding passes and changes nothing |
| Registries.SeedRowsValue | clc/modules/compute-backend/src/main/java/com/eucalyptus/vmtypes/VmTypes.java:185-209 | a name newly cached by the seeding holds what the resolver gives for it against the database as it was |
| Registries.SeededValue | clc/modules/compute-backend/src/main/java/com/eucalyptus/vmtypes/VmTypes.java:185-209 | seeding with the database up caches an uncached table name with its persisted row if there is one, and with its table row otherwise |
| Registries.SeedingGrounded | clc/modules/compute-backend/src/main/java/com/eucalyptus/vmtypes/VmTypes.java:323-327 | a seeding over the whole table caches all of it when it passes, and keeps the cache grounded |
| Registries.SeededFromTable | clc/modules/compute-backend/src/main/java/com/eucalyptus/vmtypes/VmTypes.java:200-205 | a table name neither cached nor persisted is seeded with its table row, enabled exactly by the default rule |
| Registries.InitializeWhenUp | clc/modules/compute-backend/src/main/java/com/eucalyptus/vmtypes/VmTypes.java:323-347 | with the database up, initialization passes and caches the whole table |
| Registries.InitializeIdempotent | clc/modules/compute-backend/src/main/java/com/eucalyptus/vmtypes/VmTypes.java:323-347 | after a passing initialization, another one passes at once and changes nothing |
| Registries.InitializeWhenCached | clc/modules/compute-backend/src/main/java/com/eucalyptus/vmtypes/VmTypes.java:323-347 | on a cache holding the whole table, initialization only marks the reference |
| Registries.ReconcileWhenUp | clc/modules/compute-backend/src/main/java/com/eucalyptus/vmtypes/VmTypes.java:331-343 | with the database up, reconciliation passes |
| Registries.FreshLookupSucceeds | clc/modules/compute-backend/src/main/java/com/eucalyptus/vmtypes/VmTypes.java:318-368 | on a registry that was never used, with the database up, looking up any table name succeeds with the persisted row if there is one and the table's seeded type otherwise |
| Registries.FreshDefaultLookup | clc/modules/compute-backend/src/main/java/com/eucalyptus/vmtypes/VmTypes.java:318-368 | on a registry that was never used, with the database up, a request naming no type gets the "t2.micro" type |
| Registries.DefaultLookup | clc/modules/compute-backend/src/main/java/com/eucalyptus/vmtypes/VmTypes.java:359-368 | a request naming no type gets the "t2.micro" type |
| Registries.UpdateReplaces | clc/modules/compute-backend/src/main/java/com/eucalyptus/vmtypes/VmTypes.java:153-166 | updating a cached name with the database up persists and caches the new type and returns it |
| Registries.UpdateUncachedFails | clc/modules/compute-backend/src/main/java/com/eucalyptus/vmtypes/VmTypes.java:153-166 | updating a name that is not cached fails with NoSuchMetadata and inserts nothing |
| Registries.LookupAfterUpdate | clc/modules/compute-backend/src/main/java/com/eucalyptus/vmtypes/VmTypes.java:153-170 | after a successful update, a lookup of the name returns the updated type and changes nothing |
| Registries.UpdateStoresValue | clc/modules/compute-backend/src/main/java/com/eucalyptus/vmtypes/VmTypes.java:153-166 | a successful update returns a value equal to the given type, which is now the persisted row (the source returns the merged copy read back from the cache) |
| Registries.UpdateIdempotent | clc/modules/compute-backend/src/main/java/com/eucalyptus/vmtypes/VmTypes.java:153-166 | updating a second time with the same type returns the same and changes nothing |
| Registries.UpdateSameValue | clc/modules/compute-backend/src/main/java/com/eucalyptus/vmtypes/VmTypes.java:153-166 | updating a cached type with itself returns it and changes nothing |
| Registries.KeyedDistinct | clc/modules/compute-backend/src/main/java/com/eucalyptus/vmtypes/VmTypes.java:370-378 | the values of a map keyed by name never share a name, so the listings hold every cached value |
| Registries.Registry.constructor | clc/modules/compute-backend/src/main/java/com/eucalyptus/vmtypes/VmTypes.java:318-321 | a new registry is unmarked, with an empty cache over the given database |
| Registries.Registry.Initialize | clc/modules/compute-backend/src/main/java/com/eucalyptus/vmtypes/VmTypes.java:323-347 | result and new state are those of `Initialized`; the invariants are kept |
| Registries.Registry.ReadAll | clc/modules/compute-backend/src/main/java/com/eucalyptus/vmtypes/VmTypes.java:324-327 | the loop's result and the map's new state are those of `SeedRows` |
| Registries.Registry.Reconcile | clc/modules/compute-backend/src/main/java/com/eucalyptus/vmtypes/VmTypes.java:329-345 | result and new state are those of `Reconciled`; the invariants are kept |
| Registries.Registry.PutAllAbsent | clc/modules/compute-backend/src/main/java/com/eucalyptus/vmtypes/VmTypes.java:331-343 | the loop's result and the map's new state are those of `ReconcileRows` |
| Registries.Registry.Get | clc/modules/compute-backend/src/main/java/com/eucalyptus/vmtypes/VmTypes.java:359-368 | result and new state are those of `RegGet` |
| Registries.Registry.PutIfAbsent | clc/modules/compute-backend/src/main/java/com/eucalyptus/vmtypes/VmTypes.java:349-352 | result and new state are those of `RegPutIfAbsent` |
| Registries.Registry.Replace | clc/modules/compute-backend/src/main/java/com/eucalyptus/vmtypes/VmTypes.java:354-357 | result and new state are those of `RegReplaced` |
| Registries.Registry.List | clc/modules/compute-backend/src/main/java/com/eucalyptus/vmtypes/VmTypes.java:370-373 | after initialization, the result is the sorted snapshot of exactly the cached types; it fails exactly when initialization fails, and then with initialization's exception |
| Registries.Registry.ListEnabled | clc/modules/compute-backend/src/main/java/com/eucalyptus/vmtypes/VmTypes.java:375-378 | after initialization, the result is the sorted snapshot of exactly the enabled cached types; it fails exactly when initialization fails, and then with initialization's exception |
| Registries.Lookup | clc/modules/compute-backend/src/main/java/com/eucalyptus/vmtypes/VmTypes.java:168-170 | result and new state are those of `RegGet`; a `null` name is accepted and means the default name |
| Registries.Update | clc/modules/compute-backend/src/main/java/com/eucalyptus/vmtypes/VmTypes.java:153-166 | result and new state are those of `Updated` |
| WebSessions.LifetimeIsTwoWeeks | clc/modules/www/src/main/java/com/eucalyptus/webui/server/WebSessionManager.java:15 | 2·7·24·60·60·1000 is 1209600000, within `int` range |
| WebSessions.Expired | clc/modules/www/src/main/java/com/eucalyptus/webui/server/WebSessionManager.java:56 | when the `long` difference of the clock and the creation time does not overflow, a session is expired exactly when it is older than two weeks |
| WebSessions.WithNewSession | clc/modules/www/src/main/java/com/eucalyptus/webui/server/WebSessionManager.java:39-45 | the new id maps to a session with the given user and account, created and last accessed now; the other entries are unchanged |
| WebSessions.LookupSession | clc/modules/www/src/main/java/com/eucalyptus/webui/server/WebSessionManager.java:53-62 | the session is returned exactly when its id is present and its age is at most the lifetime; then nothing changes; an expired session is removed, and only it |
| WebSessions.WithoutSession | clc/modules/www/src/main/java/com/eucalyptus/webui/server/WebSessionManager.java:69-73 | a `null` id changes nothing; otherwise exactly that key is removed and the other entries are kept |
| WebSessions.FreshSessionFound | clc/modules/www/src/main/java/com/eucalyptus/webui/server/WebSessionManager.java:39-62 | a new session is returned unchanged by every lookup within two weeks, the exact boundary included |
| WebSessions.StaleSessionEvicted | clc/modules/www/src/main/java/com/eucalyptus/webui/server/WebSessionManager.java:39-62 | past two weeks, the lookup returns nothing and drops that session alone |
| WebSessions.OverflowedAgeNotExpired | clc/modules/www/src/main/java/com/eucalyptus/webui/server/WebSessionManager.java:56 | an age that overflows a `long` wraps to a negative number and does not count as expired |
| WebSessions.MissStaysMissing | clc/modules/www/src/main/java/com/eucalyptus/webui/server/WebSessionManager.java:53-62 | once a lookup found nothing, a later lookup of that id finds nothing and changes nothing |
| WebSessions.RemovedNotFound | clc/modules/www/src/main/java/com/eucalyptus/webui/server/WebSessionManager.java:53-73 | after a session is removed, looking it up finds nothing |
| WebSessions.WebSessionManager.constructor | clc/modules/www/src/main/java/com/eucalyptus/webui/server/WebSessionManager.java:19-23 | a new manager holds no session |
| WebSessions.WebSessionManager.NewSession | clc/modules/www/src/main/java/com/eucalyptus/webui/server/WebSessionManager.java:39-45 | returns the generated id; the new map is `WithNewSession` |
| WebSessions.WebSessionManager.GetSession | clc/modules/www/src/main/java/com/eucalyptus/webui/server/WebSessionManager.java:53-62 | result and new map are those of `LookupSession` |
| WebSessions.WebSessionManager.RemoveSession | clc/modules/www/src/main/java/com/eucalyptus/webui/server/WebSessionManager.java:69-73 | the new map is `WithoutSession` |

`Layout.AsVmTypeInfo` states that:

- a produced layout carries the type's fields and has at most one ephemeral entry;
- it has an EBS root exactly for block-storage images;
- it has swap exactly for Linux instance-store images whose root is a partition;
- it fails as too large exactly when an image that is not on block storage exceeds the disk;
- it fails as unrecognized exactly for an unknown image kind that passed the size check.

## Left out

- **Availability notification.** `ClusterAvailability` and the `reset` that `update` calls are not modelled. They only refresh cluster state under locks, and their failures are logged, never propagated.
- **Concurrency.**
  - The `synchronized` methods and the `AtomicMarkableReference` are not modelled. The compare-and-set is modelled as a sequential test-and-set.
  - The concurrent skip-list map is not modelled as concurrent. Each operation is atomic in the model.
- **Transactions.** The transaction wrappers around the resolver and the persister are not modelled. A failed write is the `dbUp = false` case.
- **Persisting a null.** When the merge fails, the persister returns `null` and the skip-list map then throws. That path is modelled as a `PersistenceFailure` that changes nothing.
- **Removal.** `PersistentMap.remove` (both forms) is not modelled, because the registry never calls it.
- **The full table.** `Catalog.PREDEFINED` holds 8 representative rows of `PredefinedTypes`, each with its own values and constant. They include the default type "t2.micro", the disabled "m5d.large" next to the enabled "m5.large", and rows of older families. The size that `initialize` compares against is therefore 8, not the table's full length.
- **Other conversions.** `VmType430Upgrade`, `VmTypeToVmTypeDetails` and `isUnorderedType` are not modelled.
- **Log and exception messages.** Their text is not modelled; only the kind of exception and its values are.
- **The `VmType` entity class is not part of this model.**
  - Its ordering (`compareTo`) is taken to be by name, by `String.compareTo`.
  - Its `equals` is taken to be structural equality.
  - `getDisplayName` is taken to be the name.
  - Its ephemeral-disk list is not modelled.
- **`DEFAULT_TYPE_NAME`** is configurable at run time. The model fixes it at its initial value, "t2.micro".
- **The `VmTypeInfo` class is not part of this model.**
  - `setEphemeral(0, …)` is modelled as making the ephemeral list exactly that one entry.
  - `setRootDeviceName` and `setEbsRoot` are modelled as field updates.
  - The formatting switches `FORMAT_EPHEMERAL_STORAGE` and `FORMAT_SWAP` are passed in as a `LayoutConfig`.
- **`ImageManager.isPathAPartition` is not part of this model.** Whether the root device is a partition is a field of the image.
- **Null image size.** A `null` image size would throw a `NullPointerException`; it is not modelled.
- **Upper-casing.** `toUpperCase` is modelled on ASCII letters only, in a locale-independent way. Every table name is ASCII. The source uses the default locale, so under a Turkish locale "t2.micro" becomes "T2MİCRO" (dotted capital I), which matches no constant; the model does not capture that.
- **String order.** `String.compareTo` compares UTF-16 code units; the model compares Dafny characters, which are Unicode scalar values. The two orders agree on every character below U+D800, which includes every table name.
- Layout.WindowsLayout, Layout.LinuxHvmLayout, Layout.LinuxPvLayout, Layout.InstanceStoreAccounting: these assume a non-negative image size, so the `long` subtractions do not wrap. `Layout.AsVmTypeInfo` itself models the wrap-around.
- WebSessions.StaleSessionEvicted: this lemma assumes the session's age fits in a `long`. `WebSessions.OverflowedAgeNotExpired` shows what happens when it does not.
- **Web sessions: external inputs.**
  - `ServletUtils.genGUID` is a parameter of `NewSession`.
  - The clock is a parameter of `NewSession` and `GetSession`.
  - A repeated id overwrites the earlier session, as `HashMap.put` does.
- **Web sessions: null ids.** Because every key is a generated GUID, looking up a `null` id finds nothing. A `null` user or account name is not modelled.
- **Web sessions: the singleton.** `WebSessionManager.getInstance` is not modelled; the manager is constructed directly.
- PersistentMaps.Resolve: a failed read while writes still work is not modelled (a non-unique result, or a failure to materialize the ephemeral disks, VmTypes.java:192-203). One flag `dbUp` stands for the whole database, so a read fails only together with the write, and a type that is persisted is always returned when the database is up. In the source such a read failure falls back to creating the type from the table and persisting it.
- **Registries.Update:** the `putIfAbsent` branch of `update` is never reached (see above). The method therefore has no such branch.
