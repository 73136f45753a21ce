/** Creating a table: staged publication of catalog, runtime handles and manifest, and its compensation. */
module Publication {
  import opened Reads

  type Name = string
  type Path = nat
  type Handle = nat

  /** The name of the index that a primary key gets. */
  function PrimaryIndex(table: Name): Name {
    "__pk__" + table
  }

  datatype TableMeta = TableMeta(name: Name, columns: set<string>, primaryKey: Option<string>)

  datatype IndexMeta = IndexMeta(name: Name, table: Name, column: string, clustered: bool, file: Path)

  datatype TableFiles = TableFiles(identity: nat, base: Path, indexes: map<Name, Path>)

  /** Metadata of tables and indexes, in memory. */
  class Catalog {
    var tables: map<Name, TableMeta>
    var indexes: map<Name, IndexMeta>

    /** Every index belongs to a registered table. */
    ghost predicate Valid()
      reads this
    {
      forall i :: i in indexes ==> indexes[i].table in tables
    }

    constructor ()
      ensures Valid() && tables == map[] && indexes == map[]
    {
      tables, indexes := map[], map[];
    }

    method RegisterTable(t: TableMeta) returns (ok: bool)
      requires Valid()
      modifies this`tables
      ensures Valid() && ok == (t.name !in old(tables))
      ensures tables == if ok then old(tables)[t.name := t] else old(tables)
    {
      ok := t.name !in tables;
      if ok {
        tables := tables[t.name := t];
      }
    }

    /** Refuses while an index still refers to the table. */
    method UnregisterTable(name: Name) returns (ok: bool)
      requires Valid()
      modifies this`tables
      ensures Valid()
      ensures ok <==> name in old(tables) && forall i :: i in indexes ==> indexes[i].table != name
      ensures tables == if ok then old(tables) - {name} else old(tables)
    {
      ok := name in tables && !exists i | i in indexes.Keys :: indexes[i].table == name;
      if ok {
        tables := tables - {name};
      }
    }

    /** Validates every reference before it changes anything. */
    method RegisterIndex(i: IndexMeta) returns (ok: bool)
      requires Valid()
      modifies this`indexes
      ensures Valid()
      ensures ok <==> i.name !in old(indexes) && i.table in tables && i.column in tables[i.table].columns
                      && (i.clustered ==> forall j :: j in old(indexes) ==>
                          !(old(indexes)[j].table == i.table && old(indexes)[j].clustered))
                      && (forall j :: j in old(indexes) ==> old(indexes)[j].file != i.file)
      ensures indexes == if ok then old(indexes)[i.name := i] else old(indexes)
    {
      ok := i.name !in indexes && i.table in tables && i.column in tables[i.table].columns
            && !(i.clustered && exists j | j in indexes.Keys :: indexes[j].table == i.table && indexes[j].clustered)
            && !(exists j | j in indexes.Keys :: indexes[j].file == i.file);
      if ok {
        indexes := indexes[i.name := i];
      }
    }

    method UnregisterIndex(name: Name) returns (ok: bool)
      requires Valid()
      modifies this`indexes
      ensures Valid() && ok == (name in old(indexes))
      ensures indexes == if ok then old(indexes) - {name} else old(indexes)
    {
      ok := name in indexes;
      if ok {
        indexes := indexes - {name};
      }
    }
  }

  /** Runtime handles of registered tables and indexes. */
  class Environment {
    const catalog: Catalog
    var storages: map<Name, Handle>
    var indexes: map<Name, Handle>

    constructor (catalog: Catalog)
      ensures this.catalog == catalog && storages == map[] && indexes == map[]
    {
      this.catalog, storages, indexes := catalog, map[], map[];
    }

    method RegisterStorage(table: Name, h: Handle) returns (ok: bool)
      modifies this`storages
      ensures ok <==> table in catalog.tables && table !in old(storages) && h !in old(storages).Values
      ensures storages == if ok then old(storages)[table := h] else old(storages)
    {
      ok := table in catalog.tables && table !in storages && h !in storages.Values;
      if ok {
        storages := storages[table := h];
      }
    }

    method UnregisterStorage(table: Name) returns (ok: bool)
      modifies this`storages
      ensures ok <==> table in catalog.tables && table in old(storages)
      ensures storages == if ok then old(storages) - {table} else old(storages)
    {
      ok := table in catalog.tables && table in storages;
      if ok {
        storages := storages - {table};
      }
    }

    /** An index is registered only beside the storage of its table. */
    method RegisterIndex(name: Name, h: Handle) returns (ok: bool)
      modifies this`indexes
      ensures ok <==> name in catalog.indexes && name !in old(indexes) && h !in old(indexes).Values
                      && catalog.indexes[name].table in storages
      ensures indexes == if ok then old(indexes)[name := h] else old(indexes)
    {
      ok := name in catalog.indexes && name !in indexes && h !in indexes.Values
          && catalog.indexes[name].table in storages;
      if ok {
        indexes := indexes[name := h];
      }
    }

    method UnregisterIndex(name: Name) returns (ok: bool)
      modifies this`indexes
      ensures ok <==> name in catalog.indexes && name in old(indexes)
      ensures indexes == if ok then old(indexes) - {name} else old(indexes)
    {
      ok := name in catalog.indexes && name in indexes;
      if ok {
        indexes := indexes - {name};
      }
    }
  }

  /** The steps of a creation that can fail, in their order. A step that fails has no effect. */
  datatype Point =
    | HeapFile | IndexFile | Flush
    | CatalogTable | RuntimeStorage | CatalogIndex | RuntimeIndex
    | Resources | ManifestFile

  function Rank(p: Point): nat {
    match p
    case HeapFile => 0
    case IndexFile => 1
    case Flush => 2
    case CatalogTable => 3
    case RuntimeStorage => 4
    case CatalogIndex => 5
    case RuntimeIndex => 6
    case Resources => 7
    case ManifestFile => 8
  }

  /** The steps of the compensation that can fail. */
  datatype Cleanup =
    | DropResources | DropRuntimeIndex | DropCatalogIndex | DropRuntimeStorage | DropCatalogTable
    | CloseIndex | CloseStorage | UnlinkIndex | UnlinkTable

  datatype Creation = Creation(table: TableMeta, identity: nat, tablePath: Path, indexPath: Path, storage: Handle,
                               index: Handle)

  /** Everything that a creation publishes, except the paths. */
  datatype Published = Published(
    tables: map<Name, TableMeta>,
    indexes: map<Name, IndexMeta>,
    storages: map<Name, Handle>,
    runtimeIndexes: map<Name, Handle>,
    ownedStorages: map<Name, Handle>,
    ownedIndexes: map<Name, Handle>,
    resources: map<Name, TableFiles>,
    manifest: seq<TableMeta>,
    files: set<Path>)

  predicate HasPrimary(c: Creation) {
    c.table.primaryKey.Just?
  }

  function IndexOf(c: Creation): IndexMeta
    requires HasPrimary(c)
  {
    IndexMeta(PrimaryIndex(c.table.name), c.table.name, c.table.primaryKey.value, false, c.indexPath)
  }

  function FilesOf(c: Creation): TableFiles {
    TableFiles(c.identity, c.tablePath, if HasPrimary(c) then map[PrimaryIndex(c.table.name) := c.indexPath] else map[])
  }

  /** What is published after the first steps of a creation. */
  ghost function Staged(p: Published, c: Creation, done: nat): Published {
    var t, pk := c.table.name, HasPrimary(c);
    var i := PrimaryIndex(t);
    Published(
      if done >= 4 then p.tables[t := c.table] else p.tables,
      if done >= 6 && pk then p.indexes[i := IndexOf(c)] else p.indexes,
      if done >= 5 then p.storages[t := c.storage] else p.storages,
      if done >= 7 && pk then p.runtimeIndexes[i := c.index] else p.runtimeIndexes,
      if done >= 7 then p.ownedStorages[t := c.storage] else p.ownedStorages,
      if done >= 7 && pk then p.ownedIndexes[i := c.index] else p.ownedIndexes,
      if done >= 8 then p.resources[t := FilesOf(c)] else p.resources,
      if done >= 9 then p.manifest + [c.table] else p.manifest,
      p.files + (if done >= 1 then {c.tablePath} else {}) + if done >= 2 && pk then {c.indexPath} else {})
  }

  ghost function StagedPaths(paths: map<Name, Path>, c: Creation, done: nat): map<Name, Path> {
    if done < 7 then paths
    else if HasPrimary(c) then paths[c.table.name := c.tablePath][PrimaryIndex(c.table.name) := c.indexPath]
    else paths[c.table.name := c.tablePath]
  }

  /** How many steps a creation completes. A table without a primary key has no index steps that could fail. */
  function Reach(c: Creation, stop: Option<Point>): (n: nat)
    ensures n <= 9
  {
    match stop
    case Nothing => 9
    case Just(p) =>
      if !HasPrimary(c) && (p == IndexFile || p == CatalogIndex || p == RuntimeIndex) then 9 else Rank(p)
  }

  // The compensations that a failure calls for after so many steps, and whether one of them fails.

  predicate IndexDropFails(c: Creation, done: nat, bad: set<Cleanup>) {
    HasPrimary(c) && ((done >= 7 && DropRuntimeIndex in bad) || (done >= 6 && DropCatalogIndex in bad))
  }

  predicate TableDropFails(done: nat, bad: set<Cleanup>) {
    (done >= 5 && DropRuntimeStorage in bad) || (done >= 4 && DropCatalogTable in bad)
  }

  predicate RemovalFails(c: Creation, done: nat, bad: set<Cleanup>) {
    || (HasPrimary(c) && ((done >= 2 && CloseIndex in bad) || UnlinkIndex in bad))
    || (done >= 1 && CloseStorage in bad)
    || UnlinkTable in bad
  }

  predicate CleanupFails(c: Creation, done: nat, bad: set<Cleanup>) {
    || (done >= 8 && DropResources in bad)
    || IndexDropFails(c, done, bad)
    || TableDropFails(done, bad)
    || RemovalFails(c, done, bad)
  }

  /** What is new about a creation: its files, its handles and its identity. */
  ghost predicate FreshIn(p: Published, c: Creation) {
    && c.tablePath !in p.files && c.indexPath !in p.files && c.tablePath != c.indexPath
    && c.storage !in p.storages.Values && c.index !in p.runtimeIndexes.Values
    && (forall t :: t in p.resources ==> p.resources[t].identity != c.identity)
  }

  predicate CreatableIn(tables: map<Name, TableMeta>, indexes: map<Name, IndexMeta>, c: Creation) {
    && c.table.name !in tables
    && (HasPrimary(c) ==> PrimaryIndex(c.table.name) !in indexes && c.table.primaryKey.value in c.table.columns)
  }

  /** The manifest lists exactly the registered tables. */
  ghost predicate Lists(manifest: seq<TableMeta>, tables: map<Name, TableMeta>) {
    && (forall m :: m in manifest ==> m.name in tables && tables[m.name] == m)
    && (forall t :: t in tables ==> tables[t].name == t && tables[t] in manifest)
  }

  /** All registries and the manifest know the same tables and indexes, and every file that is referred to exists. */
  ghost predicate Agrees(p: Published, paths: map<Name, Path>) {
    && p.tables.Keys == p.ownedStorages.Keys == p.resources.Keys && p.storages == p.ownedStorages
    && p.indexes.Keys == p.ownedIndexes.Keys && p.runtimeIndexes == p.ownedIndexes
    && (forall i :: i in p.indexes ==> p.indexes[i].table in p.tables && p.indexes[i].file in p.files)
    && (forall n :: n in paths ==> paths[n] in p.files)
    && Lists(p.manifest, p.tables)
  }

  lemma {:induction false} NotYet(p: Published, paths: map<Name, Path>, c: Creation)
    requires Agrees(p, paths) && FreshIn(p, c) && CreatableIn(p.tables, p.indexes, c)
    ensures Unpublished(p, c) && forall n :: n in paths ==> paths[n] != c.tablePath && paths[n] != c.indexPath
  {
  }

  /** A completed creation leaves everything in agreement. */
  lemma {:induction false} StagedAgrees(p: Published, paths: map<Name, Path>, c: Creation)
    requires Agrees(p, paths) && FreshIn(p, c) && CreatableIn(p.tables, p.indexes, c)
    ensures Agrees(Staged(p, c, 9), StagedPaths(paths, c, 9))
  {
    var s, t := Staged(p, c, 9), c.table.name;
    forall x | x in s.tables
      ensures s.tables[x].name == x && s.tables[x] in s.manifest
    {
      if x != t {
        assert s.tables[x] == p.tables[x];
      }
    }
  }

  /** Taking a failed creation back may lose paths, but keeps the rest in agreement. */
  lemma {:induction false} BackAgrees(p: Published, paths: map<Name, Path>, c: Creation, done: nat)
    requires Agrees(p, paths)
    ensures Agrees(p, PathsWithout(StagedPaths(paths, c, done), c, done))
  {
    var back := PathsWithout(StagedPaths(paths, c, done), c, done);
    forall n | n in back
      ensures n in paths && back[n] == paths[n]
    {
    }
  }

  /** All that a sequence of creations goes on. */
  datatype World = World(p: Published, paths: map<Name, Path>, available: bool)

  /** One creation, the step at which it fails and the compensations that then fail. */
  datatype Attempt = Attempt(c: Creation, stop: Option<Point>, bad: set<Cleanup>)

  /** What a creation makes of the world. Of an owner that has become unavailable nothing more is said. */
  ghost function Then(w: World, a: Attempt): World {
    var done := Reach(a.c, a.stop);
    if !w.available || !CreatableIn(w.p.tables, w.p.indexes, a.c) then w
    else if done == 9 then World(Staged(w.p, a.c, 9), StagedPaths(w.paths, a.c, 9), true)
    else if CleanupFails(a.c, done, a.bad) then World(w.p, w.paths, false)
    else World(w.p, PathsWithout(StagedPaths(w.paths, a.c, done), a.c, done), true)
  }

  ghost function After(w: World, attempts: seq<Attempt>): World
    decreases |attempts|
  {
    if attempts == [] then w else After(Then(w, attempts[0]), attempts[1..])
  }

  /** Every creation gets new files, handles and an identity. */
  ghost predicate AllFresh(w: World, attempts: seq<Attempt>)
    decreases |attempts|
  {
    attempts != [] ==> (w.available ==> FreshIn(w.p, attempts[0].c)) && AllFresh(Then(w, attempts[0]), attempts[1..])
  }

  /** The tables of the creations that succeed, in their order. */
  ghost function Successes(w: World, attempts: seq<Attempt>): seq<TableMeta>
    decreases |attempts|
  {
    if attempts == [] then []
    else
      var a := attempts[0];
      (if w.available && CreatableIn(w.p.tables, w.p.indexes, a.c) && Reach(a.c, a.stop) == 9 then [a.c.table] else [])
      + Successes(Then(w, a), attempts[1..])
  }

  datatype Result = Created | Refused | Failed

  class DatabaseOwner {
    const catalog: Catalog
    const environment: Environment
    var storages: map<Name, Handle>
    var indexes: map<Name, Handle>
    var paths: map<Name, Path>
    var resources: map<Name, TableFiles>
    // The manifest as it is on disk; the copy in memory changes right after it.
    var manifest: seq<TableMeta>
    var files: set<Path>
    var available: bool

    ghost function Now(): Published
      reads this, catalog, environment
    {
      Published(catalog.tables, catalog.indexes, environment.storages, environment.indexes, storages, indexes,
                resources, manifest, files)
    }

    constructor ()
      ensures Valid() && available && manifest == [] && fresh(catalog) && fresh(environment)
    {
      var c := new Catalog();
      catalog := c;
      environment := new Environment(c);
      storages, indexes, paths, resources, manifest, files, available := map[], map[], map[], map[], [], {}, true;
    }

    ghost predicate Valid()
      reads this, catalog, environment
    {
      environment.catalog == catalog && catalog.Valid() && Agrees(Now(), paths)
    }

    ghost function Here(): World
      reads this, catalog, environment
    {
      World(Now(), paths, available)
    }

    ghost predicate Fresh(c: Creation)
      reads this, catalog, environment
    {
      FreshIn(Now(), c)
    }

    /** The names of the new table and its index are not taken as the names of an index or a table. */
    ghost predicate NamesApart(c: Creation)
      reads this
    {
      c.table.name !in paths && (HasPrimary(c) ==> PrimaryIndex(c.table.name) !in paths)
    }

    /** The checks that precede every change. */
    predicate Creatable(c: Creation)
      reads this, catalog
    {
      available && CreatableIn(catalog.tables, catalog.indexes, c)
    }

    /** Creates the files, which nothing refers to yet. */
    method CreateFiles(c: Creation, stop: Option<Point>) returns (done: nat)
      requires Valid() && Fresh(c) && Creatable(c)
      modifies this`files
      ensures Now() == Staged(old(Now()), c, done)
      ensures done == if Reach(c, stop) < 3 then Reach(c, stop) else 3
    {
      if stop == Just(HeapFile) {
        return 0;
      }
      files := files + {c.tablePath};
      if HasPrimary(c) {
        if stop == Just(IndexFile) {
          return 1;
        }
        files := files + {c.indexPath};
      }
      done := if stop == Just(Flush) then 2 else 3;
    }

    /** Registers the table and its index with catalog and environment. No check can refuse them. */
    method Register(c: Creation, stop: Option<Point>) returns (done: nat)
      requires environment.catalog == catalog && catalog.Valid() && Reach(c, stop) >= 3
      requires c.table.name !in catalog.tables && c.table.name !in environment.storages
      requires c.storage !in environment.storages.Values
      requires HasPrimary(c) ==>
                 var i := PrimaryIndex(c.table.name);
                 && i !in catalog.indexes && i !in environment.indexes && c.index !in environment.indexes.Values
                 && c.table.primaryKey.value in c.table.columns
                 && forall j :: j in catalog.indexes ==> catalog.indexes[j].file != c.indexPath
      modifies catalog, environment
      ensures catalog.Valid() && done == if Reach(c, stop) < 7 then Reach(c, stop) else 7
      ensures var t, i, pk := c.table.name, PrimaryIndex(c.table.name), HasPrimary(c);
              && catalog.tables == (if done >= 4 then old(catalog.tables)[t := c.table] else old(catalog.tables))
              && environment.storages
                  == (if done >= 5 then old(environment.storages)[t := c.storage] else old(environment.storages))
              && catalog.indexes == (if done >= 6 && pk then old(catalog.indexes)[i := IndexOf(c)]
                                     else old(catalog.indexes))
              && environment.indexes
                  == (if done >= 7 && pk then old(environment.indexes)[i := c.index] else old(environment.indexes))
    {
      if stop == Just(CatalogTable) {
        return 3;
      }
      var ok := catalog.RegisterTable(c.table);
      assert ok;
      if stop == Just(RuntimeStorage) {
        return 4;
      }
      ok := environment.RegisterStorage(c.table.name, c.storage);
      assert ok;
      if HasPrimary(c) {
        if stop == Just(CatalogIndex) {
          return 5;
        }
        ok := catalog.RegisterIndex(IndexOf(c));
        assert ok;
        if stop == Just(RuntimeIndex) {
          return 6;
        }
        ok := environment.RegisterIndex(PrimaryIndex(c.table.name), c.index);
        assert ok;
      }
      done := 7;
    }

    /** Takes the handles over, registers the table's files, and installs the manifest. */
    method Install(c: Creation, stop: Option<Point>) returns (done: nat)
      requires Reach(c, stop) >= 7
      modifies this`storages, this`indexes, this`paths, this`resources, this`manifest
      ensures done == Reach(c, stop) && paths == StagedPaths(old(paths), c, done)
      ensures var t, i, pk := c.table.name, PrimaryIndex(c.table.name), HasPrimary(c);
              && storages == old(storages)[t := c.storage]
              && indexes == (if pk then old(indexes)[i := c.index] else old(indexes))
              && resources == (if done >= 8 then old(resources)[t := FilesOf(c)] else old(resources))
              && manifest == (if done >= 9 then old(manifest) + [c.table] else old(manifest))
    {
      var t, i := c.table.name, PrimaryIndex(c.table.name);
      storages, paths := storages[t := c.storage], paths[t := c.tablePath];
      if HasPrimary(c) {
        indexes, paths := indexes[i := c.index], paths[i := c.indexPath];
      }
      if stop == Just(Resources) {
        return 7;
      }
      resources := resources[t := FilesOf(c)];
      if stop == Just(ManifestFile) {
        return 8;
      }
      manifest := manifest + [c.table];
      done := 9;
    }

    /** The publishing steps, up to the first one that fails. */
    method Publish(c: Creation, stop: Option<Point>) returns (done: nat)
      requires Valid() && Fresh(c) && Creatable(c)
      modifies this, catalog, environment
      ensures available && environment.catalog == catalog && catalog.Valid() && done == Reach(c, stop)
      ensures Now() == Staged(old(Now()), c, done) && paths == StagedPaths(old(paths), c, done)
    {
      done := CreateFiles(c, stop);
      if done < 3 {
        return;
      }
      done := Register(c, stop);
      if done < 7 {
        return;
      }
      done := Install(c, stop);
    }

    /** Undoes the registration of the index. */
    method DropIndex(c: Creation, done: nat, bad: set<Cleanup>) returns (clean: bool)
      requires environment.catalog == catalog && catalog.Valid() && HasPrimary(c)
      requires var i := PrimaryIndex(c.table.name);
               (done >= 6 ==> i in catalog.indexes) && (done >= 7 ==> i in environment.indexes && i in catalog.indexes)
      modifies catalog`indexes, environment`indexes
      ensures var i := PrimaryIndex(c.table.name);
              clean ==>
                && catalog.indexes == (if done >= 6 then old(catalog.indexes) - {i} else old(catalog.indexes))
                && environment.indexes
                    == (if done >= 7 then old(environment.indexes) - {i} else old(environment.indexes))
      ensures catalog.Valid() && (clean <==> !IndexDropFails(c, done, bad))
    {
      var i := PrimaryIndex(c.table.name);
      clean := true;
      var ok;
      if done >= 7 {
        if DropRuntimeIndex in bad {
          clean := false;
        } else {
          ok := environment.UnregisterIndex(i);
          clean := clean && ok;
        }
      }
      if done >= 6 {
        if DropCatalogIndex in bad {
          clean := false;
        } else {
          ok := catalog.UnregisterIndex(i);
          clean := clean && ok;
        }
      }
    }

    /** Undoes the registration of the table. The catalog's guard lets it go when the index is gone. */
    method DropTable(c: Creation, done: nat, bad: set<Cleanup>) returns (clean: bool)
      requires environment.catalog == catalog && catalog.Valid() && done >= 4
      requires c.table.name in catalog.tables && (done >= 5 ==> c.table.name in environment.storages)
      modifies catalog`tables, environment`storages
      ensures var t := c.table.name;
              clean ==>
                && catalog.tables == old(catalog.tables) - {t}
                && environment.storages
                    == (if done >= 5 then old(environment.storages) - {t} else old(environment.storages))
      ensures clean <==> !TableDropFails(done, bad) && forall i :: i in catalog.indexes ==>
                catalog.indexes[i].table != c.table.name
    {
      var t := c.table.name;
      clean := true;
      var ok;
      if done >= 5 {
        if DropRuntimeStorage in bad {
          clean := false;
        } else {
          ok := environment.UnregisterStorage(t);
          clean := clean && ok;
        }
      }
      if DropCatalogTable in bad {
        clean := false;
      } else {
        ok := catalog.UnregisterTable(t);
        clean := clean && ok;
      }
    }

    /** What is registered after so many steps; no other index refers to the table. */
    ghost predicate Registered(c: Creation, done: nat)
      reads this, catalog, environment
    {
      var t, i := c.table.name, PrimaryIndex(c.table.name);
      && t in catalog.tables && (done >= 5 ==> t in environment.storages)
      && (HasPrimary(c) ==> (done >= 6 ==> i in catalog.indexes) && (done >= 7 ==> i in environment.indexes))
      && forall j :: j in catalog.indexes && catalog.indexes[j].table == t ==> done >= 6 && HasPrimary(c) && j == i
    }

    /** Undoes a registration, the index first, and forgets the handles. */
    method RollbackPublication(c: Creation, done: nat, bad: set<Cleanup>) returns (clean: bool)
      requires environment.catalog == catalog && catalog.Valid() && 4 <= done <= 8 && Registered(c, done)
      modifies this`storages, this`indexes, this`paths, catalog, environment
      ensures var t, i, pk := c.table.name, PrimaryIndex(c.table.name), HasPrimary(c);
              && storages == old(storages) - {t}
              && indexes == (if pk then old(indexes) - {i} else old(indexes))
              && paths == (if pk then old(paths) - {t, i} else old(paths) - {t})
              && (clean ==>
                    && catalog.tables == old(catalog.tables) - {t}
                    && environment.storages
                    == (if done >= 5 then old(environment.storages) - {t} else old(environment.storages))
                    && catalog.indexes == (if done >= 6 && pk then old(catalog.indexes) - {i} else old(catalog.indexes))
                    && environment.indexes
                    == (if done >= 7 && pk then old(environment.indexes) - {i} else old(environment.indexes)))
      ensures clean <==> !IndexDropFails(c, done, bad) && !TableDropFails(done, bad)
    {
      var t, i, pk := c.table.name, PrimaryIndex(c.table.name), HasPrimary(c);
      var first := true;
      if pk {
        first := DropIndex(c, done, bad);
      }
      var second := DropTable(c, done, bad);
      clean := first && second;
      storages := storages - {t};
      if pk {
        indexes, paths := indexes - {i}, paths - {t, i};
      } else {
        paths := paths - {t};
      }
    }

    /** Removes the files of a failed creation, after its handles are closed. */
    method RemoveFiles(c: Creation, done: nat, bad: set<Cleanup>) returns (clean: bool)
      modifies this`files
      ensures clean ==> files == old(files) - (if HasPrimary(c) then {c.indexPath, c.tablePath} else {c.tablePath})
      ensures clean <==> !RemovalFails(c, done, bad)
    {
      var pk := HasPrimary(c);
      clean := !(pk && done >= 2 && CloseIndex in bad) && !(done >= 1 && CloseStorage in bad);
      if pk {
        if UnlinkIndex in bad {
          clean := false;
        } else {
          files := files - {c.indexPath};
        }
      }
      if UnlinkTable in bad {
        clean := false;
      } else {
        files := files - {c.tablePath};
      }
    }

    /** Compensates a failed creation. */
    method Compensate(c: Creation, done: nat, bad: set<Cleanup>)
      requires available && environment.catalog == catalog && catalog.Valid() && done < 9
      requires done >= 4 ==> Registered(c, done)
      modifies this, catalog, environment
      ensures available <==> !CleanupFails(c, done, bad)
      ensures available ==> Now() == TakenBack(old(Now()), c, done) && paths == PathsWithout(old(paths), c, done)
    {
      var unlisted := DropResourcesOf(c, done, bad);
      var rolledBack := RollbackIfRegistered(c, done, bad);
      var removed := RemoveFiles(c, done, bad);
      available := unlisted && rolledBack && removed;
    }

    method DropResourcesOf(c: Creation, done: nat, bad: set<Cleanup>) returns (clean: bool)
      modifies this`resources
      ensures clean == !(done >= 8 && DropResources in bad)
      ensures clean ==> resources == if done >= 8 then old(resources) - {c.table.name} else old(resources)
    {
      clean := !(done >= 8 && DropResources in bad);
      if clean && done >= 8 {
        resources := resources - {c.table.name};
      }
    }

    method RollbackIfRegistered(c: Creation, done: nat, bad: set<Cleanup>) returns (clean: bool)
      requires environment.catalog == catalog && catalog.Valid() && done <= 8
      requires done >= 4 ==> Registered(c, done)
      modifies this`storages, this`indexes, this`paths, catalog, environment
      ensures clean <==> !IndexDropFails(c, done, bad) && !TableDropFails(done, bad)
      ensures var t, i, pk := c.table.name, PrimaryIndex(c.table.name), HasPrimary(c);
              && storages == (if done >= 4 then old(storages) - {t} else old(storages))
              && indexes == (if done >= 4 && pk then old(indexes) - {i} else old(indexes))
              && paths == (if done < 4 then old(paths) else if pk then old(paths) - {t, i} else old(paths) - {t})
              && (clean ==>
                    && catalog.tables == (if done >= 4 then old(catalog.tables) - {t} else old(catalog.tables))
                    && environment.storages
                    == (if done >= 5 then old(environment.storages) - {t} else old(environment.storages))
                    && catalog.indexes == (if done >= 6 && pk then old(catalog.indexes) - {i} else old(catalog.indexes))
                    && environment.indexes
                    == (if done >= 7 && pk then old(environment.indexes) - {i} else old(environment.indexes)))
    {
      clean := true;
      if done >= 4 {
        clean := RollbackPublication(c, done, bad);
      }
    }

    /** Takes a creation back that got so far, unless a compensation fails. */
    method TakeBack(c: Creation, done: nat, bad: set<Cleanup>, ghost p: Published)
      requires available && environment.catalog == catalog && catalog.Valid() && done < 9
      requires Unpublished(p, c) && Now() == Staged(p, c, done)
      modifies this, catalog, environment
      ensures available <==> !CleanupFails(c, done, bad)
      ensures available ==> Now() == p && paths == PathsWithout(old(paths), c, done)
    {
      if done >= 4 {
        StagedHolds(p, c, done);
      }
      BackToBefore(p, c, done);
      hide Staged, TakenBack, Unpublished;
      Compensate(c, done, bad);
    }

    /**
     * Creates a table. A creation that fails part-way takes everything back, or marks the owner
     * unavailable when a compensation fails too.
     */
    method CreateTable(c: Creation, stop: Option<Point>, bad: set<Cleanup>) returns (r: Result)
      requires available ==> Valid() && Fresh(c)
      modifies this, catalog, environment
      ensures r == if !old(Creatable(c)) then Refused else if Reach(c, stop) == 9 then Created else Failed
      ensures r == Refused ==> Now() == old(Now()) && paths == old(paths) && available == old(available)
      ensures r == Created ==> Valid() && available && Now() == Staged(old(Now()), c, 9)
      ensures r == Created ==>
                ((forall n :: n in old(paths) ==> n in paths && paths[n] == old(paths)[n]) <==> old(NamesApart(c)))
      ensures r == Failed ==> (available <==> !CleanupFails(c, Reach(c, stop), bad))
      ensures r == Failed && available ==> Valid() && Now() == old(Now())
      ensures available == Then(old(Here()), Attempt(c, stop, bad)).available
      ensures available ==> Here() == Then(old(Here()), Attempt(c, stop, bad))
      ensures r == Failed && available ==> (paths == old(paths) <==> Reach(c, stop) < 4 || old(NamesApart(c)))
    {
      if !Creatable(c) {
        return Refused;
      }
      ghost var p, q := Now(), paths;
      NotYet(p, q, c);
      StagedAgrees(p, q, c);
      PathsKept(q, c);
      hide Agrees, FreshIn, CreatableIn, Unpublished, Staged, StagedPaths, PathsWithout;
      var done := Publish(c, stop);
      if done == 9 {
        return Created;
      }
      TakeBack(c, done, bad, p);
      PathsBack(q, c, done);
      BackAgrees(p, q, c, done);
      r := Failed;
    }

    /**
     * Any sequence of creations, whatever fails in each of them. As long as every compensation
     * succeeds all registries agree; once one fails every later creation is refused.
     */
    method CreateAll(attempts: seq<Attempt>)
      requires (available ==> Valid()) && AllFresh(Here(), attempts)
      modifies this, catalog, environment
      ensures available == After(old(Here()), attempts).available
      ensures available ==> Valid() && Here() == After(old(Here()), attempts)
      ensures available ==> manifest == old(manifest) + Successes(old(Here()), attempts)
    {
      ghost var start := Here();
      if !available {
        StaysUnavailable(start, attempts);
      }
      var i := 0;
      assert attempts[0..] == attempts;
      while i < |attempts|
        invariant i <= |attempts| && (available ==> Valid())
        invariant available ==> AllFresh(Here(), attempts[i..])
        invariant if available then After(start, attempts) == After(Here(), attempts[i..])
                  else !After(start, attempts).available
      {
        ghost var w, rest := Here(), attempts[i..];
        assert rest[0] == attempts[i] && rest[1..] == attempts[i + 1..];
        var r := CreateTable(attempts[i].c, attempts[i].stop, attempts[i].bad);
        if !available {
          StaysUnavailable(Then(w, attempts[i]), rest[1..]);
        }
        i := i + 1;
      }
      AfterManifest(start, attempts);
    }
  }

  lemma {:induction false} StaysUnavailable(w: World, attempts: seq<Attempt>)
    requires !w.available
    ensures !After(w, attempts).available
    decreases |attempts|
  {
    if attempts != [] {
      StaysUnavailable(Then(w, attempts[0]), attempts[1..]);
    }
  }

  /** The manifest grows by the tables that were created, in their order. */
  lemma {:induction false} AfterManifest(w: World, attempts: seq<Attempt>)
    ensures After(w, attempts).p.manifest == w.p.manifest + Successes(w, attempts)
    decreases |attempts|
  {
    if attempts != [] {
      AfterManifest(Then(w, attempts[0]), attempts[1..]);
    }
  }

  /** Nothing of a creation is published yet, and indexes refer to other tables only. */
  ghost predicate Unpublished(p: Published, c: Creation) {
    var t, i := c.table.name, PrimaryIndex(c.table.name);
    && t !in p.tables && t !in p.storages && t !in p.ownedStorages && t !in p.resources
    && (forall j :: j in p.indexes ==> p.indexes[j].table != t)
    && (HasPrimary(c) ==> i !in p.indexes && i !in p.runtimeIndexes && i !in p.ownedIndexes && c.indexPath !in p.files)
    && c.tablePath !in p.files && c.tablePath != c.indexPath
  }

  /** What the compensation takes back. */
  ghost function TakenBack(s: Published, c: Creation, done: nat): Published {
    var t, pk := c.table.name, HasPrimary(c);
    var i := PrimaryIndex(t);
    Published(
      if done >= 4 then s.tables - {t} else s.tables,
      if done >= 6 && pk then s.indexes - {i} else s.indexes,
      if done >= 5 then s.storages - {t} else s.storages,
      if done >= 7 && pk then s.runtimeIndexes - {i} else s.runtimeIndexes,
      if done >= 4 then s.ownedStorages - {t} else s.ownedStorages,
      if done >= 4 && pk then s.ownedIndexes - {i} else s.ownedIndexes,
      if done >= 8 then s.resources - {t} else s.resources,
      s.manifest,
      s.files - if pk then {c.indexPath, c.tablePath} else {c.tablePath})
  }

  lemma {:induction false} AddRemove<V>(m: map<Name, V>, k: Name, v: V)
    requires k !in m
    ensures m[k := v] - {k} == m && m - {k} == m
  {
  }

  lemma {:induction false} BackToBefore(p: Published, c: Creation, done: nat)
    requires Unpublished(p, c) && done < 9
    ensures TakenBack(Staged(p, c, done), c, done) == p
  {
    var s, t, i := TakenBack(Staged(p, c, done), c, done), c.table.name, PrimaryIndex(c.table.name);
    AddRemove(p.tables, t, c.table);
    AddRemove(p.storages, t, c.storage);
    AddRemove(p.ownedStorages, t, c.storage);
    AddRemove(p.resources, t, FilesOf(c));
    if HasPrimary(c) {
      AddRemove(p.indexes, i, IndexOf(c));
      AddRemove(p.runtimeIndexes, i, c.index);
      AddRemove(p.ownedIndexes, i, c.index);
    }
    assert s.files == p.files;
  }

  ghost function PathsWithout(q: map<Name, Path>, c: Creation, done: nat): map<Name, Path> {
    if done < 4 then q
    else if HasPrimary(c) then q - {c.table.name, PrimaryIndex(c.table.name)}
    else q - {c.table.name}
  }

  /** What is registered at this stage. */
  lemma {:induction false} StagedHolds(p: Published, c: Creation, done: nat)
    requires Unpublished(p, c) && 4 <= done <= 8
    ensures var s, t, i := Staged(p, c, done), c.table.name, PrimaryIndex(c.table.name);
            && t in s.tables && (done >= 5 ==> t in s.storages)
            && (HasPrimary(c) ==> (done >= 6 ==> i in s.indexes) && (done >= 7 ==> i in s.runtimeIndexes))
            && forall j :: j in s.indexes && s.indexes[j].table == t ==> done >= 6 && HasPrimary(c) && j == i
  {
  }

  lemma {:induction false} PathsKept(q: map<Name, Path>, c: Creation)
    requires forall n :: n in q ==> q[n] != c.tablePath && q[n] != c.indexPath
    ensures var paths := StagedPaths(q, c, 9);
            (forall n :: n in q ==> n in paths && paths[n] == q[n])
            <==> c.table.name !in q && (HasPrimary(c) ==> PrimaryIndex(c.table.name) !in q)
  {
    var paths := StagedPaths(q, c, 9);
    if c.table.name in q {
      assert paths[c.table.name] != q[c.table.name];
    }
    if HasPrimary(c) && PrimaryIndex(c.table.name) in q {
      assert paths[PrimaryIndex(c.table.name)] != q[PrimaryIndex(c.table.name)];
    }
  }

  lemma {:induction false} PathsBack(q: map<Name, Path>, c: Creation, done: nat)
    ensures PathsWithout(StagedPaths(q, c, done), c, done) == q
            <==> done < 4 || (c.table.name !in q && (HasPrimary(c) ==> PrimaryIndex(c.table.name) !in q))
  {
    var t, i := c.table.name, PrimaryIndex(c.table.name);
    var back := PathsWithout(StagedPaths(q, c, done), c, done);
    if done >= 4 {
      assert t !in back && (HasPrimary(c) ==> i !in back);
      if t !in q && (HasPrimary(c) ==> i !in q) {
        assert back == q;
      }
    }
  }

  /**
   * A table may be named like the primary index of another one, and both share the map of paths:
   * creating table t with a primary key beside table __pk__t loses the path of the latter, whether
   * the creation succeeds or is taken back.
   */
  lemma {:induction false} NameClash() returns (q: map<Name, Path>, c: Creation)
    ensures q == map["__pk__t" := 1] && c.table.name == "t" && HasPrimary(c)
    ensures StagedPaths(q, c, 9)["__pk__t"] == c.indexPath != q["__pk__t"]
    ensures "__pk__t" !in PathsWithout(StagedPaths(q, c, 8), c, 8)
  {
    q := map["__pk__t" := 1];
    c := Creation(TableMeta("t", {"id"}, Just("id")), 7, 2, 3, 4, 5);
    assert PrimaryIndex("t") == "__pk__t";
  }
}
