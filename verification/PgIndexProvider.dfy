/** The Postgres index: publications as transactions over the tables, and the entries read back from them. */
module PgIndexProvider {
  import opened Bytes
  import opened EndStep
  import opened IndexOps
  import opened PgOps
  import opened PgReading
  import opened PgTables
  import opened PgTags
  import opened PgYank
  import opened RegistryTypes
  import opened Wrappers
  import SemVer

  // ---- Statements ----

  /** Rows were added to `crates` at most. */
  ghost predicate CratesAdded(db: Db, db': Db) {
    db' == db.(crates := db'.crates, nextId := db'.nextId) && db.nextId <= db'.nextId &&
    CratesGrow(db.crates, db'.crates)
  }

  /** `get-or-insert-crate.sql`, and the first half of `insert-dependency.sql`. */
  method GetOrInsertCrate(db: Db, name: string, registry: string) returns (db': Db, id: Id)
    requires Constraints(db)
    ensures Constraints(db') && CratesAdded(db, db')
    ensures id in db'.crates && db'.crates[id].name == name && db'.crates[id].registry == registry
    ensures id in db.crates ==> db' == db
    ensures id !in db.crates ==>
              db'.crates == db.crates[id := db'.crates[id]] && db'.crates[id].description.None? &&
              db'.crates[id].documentation.None? && db'.crates[id].homepage.None? && db'.crates[id].repository.None?
  {
    var found := set i | i in db.crates && db.crates[i].name == name && db.crates[i].registry == registry;
    if found != {} {
      id :| id in found;
      return db, id;
    }
    id := db.nextId;
    db' := db.(crates := db.crates[id := CrateRow(name, registry, None, None, None, None)], nextId := id + 1);
    forall i | i in db.crates ensures !(db.crates[i].name == name && db.crates[i].registry == registry) {
      assert i !in found;
    }
  }

  function CrateOf(p: Publish, name: string, registry: string): CrateRow {
    CrateRow(name, registry, p.description, p.documentation, p.homepage, p.repository)
  }

  lemma CrateRowReplaced(db: Db, id: Id, row: CrateRow)
    requires Constraints(db) && id in db.crates
    requires row.name == db.crates[id].name && row.registry == db.crates[id].registry
    ensures Constraints(db.(crates := db.crates[id := row])) && CratesKept(db.crates, db.crates[id := row])
  {
  }

  /** `update-crate.sql`, only sent if something differs. */
  method UpdateCrate(db: Db, id: Id, p: Publish) returns (db': Db)
    requires Constraints(db) && id in db.crates
    ensures Constraints(db') && db' == db.(crates := db'.crates) && CratesKept(db.crates, db'.crates)
    ensures db'.crates == db.crates[id := CrateOf(p, db.crates[id].name, db.crates[id].registry)]
    ensures db'.crates[id].name == db.crates[id].name && db'.crates[id].registry == db.crates[id].registry
    ensures db'.crates[id].description == p.description && db'.crates[id].documentation == p.documentation
    ensures db'.crates[id].homepage == p.homepage && db'.crates[id].repository == p.repository
  {
    var row := db.crates[id];
    CrateRowReplaced(db, id, CrateOf(p, row.name, row.registry));
    if p.description != row.description || p.documentation != row.documentation || p.homepage != row.homepage ||
       p.repository != row.repository {
      db' := db.(crates := db.crates[id := row.(description := p.description, documentation := p.documentation,
                                                homepage := p.homepage, repository := p.repository)]);
    } else {
      db' := db;
    }
  }

  /** The crate of a publication is linked to exactly its keywords and categories. */
  ghost predicate TagsAre(db: Db, crateId: Id, p: Publish) {
    (forall name :: Linked(db.keywords, crateId, name) <==> name in p.keywords) &&
    (forall name :: Linked(db.categories, crateId, name) <==> name in p.categories)
  }

  ghost predicate OtherTagsKept(db: Db, db': Db, crateId: Id) {
    OthersKept(db.keywords, db'.keywords, crateId) && OthersKept(db.categories, db'.categories, crateId)
  }

  lemma LinksStayOwned(crates: map<Id, CrateRow>, tags: TagTables, tags': TagTables, crateId: Id)
    requires LinksOwned(crates, tags) && OthersKept(tags, tags', crateId) && crateId in crates
    ensures LinksOwned(crates, tags')
  {
  }

  method ReconcileTags(db: Db, crateId: Id, p: Publish) returns (db': Db)
    requires Constraints(db) && crateId in db.crates
    ensures Constraints(db') && TagsAre(db', crateId, p) && OtherTagsKept(db, db', crateId)
    ensures db' == db.(keywords := db'.keywords, categories := db'.categories, nextId := db'.nextId)
    ensures db.nextId <= db'.nextId
  {
    var keywords, next := Reconcile(db.keywords, db.nextId, crateId, p.keywords);
    var categories, next' := Reconcile(db.categories, next, crateId, p.categories);
    LinksStayOwned(db.crates, db.keywords, keywords, crateId);
    LinksStayOwned(db.crates, db.categories, categories, crateId);
    db' := db.(keywords := keywords, categories := categories, nextId := next');
  }

  /** The publication's crate, of the index itself, has exactly its links, keywords and categories; other crates have
      what they had. */
  ghost predicate Published(db: Db, db': Db, crateId: Id, p: Publish) {
    crateId in db'.crates && db'.crates[crateId] == CrateOf(p, p.name, "") && OtherCratesKept(db, db', crateId) &&
    TagsAre(db', crateId, p) && OtherTagsKept(db, db', crateId)
  }

  ghost predicate OtherCratesKept(db: Db, db': Db, crateId: Id) {
    forall i | i in db.crates && i != crateId :: i in db'.crates && db'.crates[i] == db.crates[i]
  }

  ghost predicate CratesGrow(crates: map<Id, CrateRow>, crates': map<Id, CrateRow>) {
    forall i | i in crates :: i in crates' && crates'[i] == crates[i]
  }

  /** The part of a publication before its version row. */
  method PrepareCrate(db: Db, p: Publish) returns (db': Db, crateId: Id)
    requires Constraints(db)
    ensures Constraints(db') && ReleasesUntouched(db, db')
    ensures Published(db, db', crateId, p)
    ensures crateId in db'.crates && db'.crates[crateId].name == p.name && db'.crates[crateId].registry == ""
    ensures db'.crates[crateId].description == p.description && db'.crates[crateId].documentation == p.documentation
    ensures db'.crates[crateId].homepage == p.homepage && db'.crates[crateId].repository == p.repository
    ensures forall name :: Linked(db'.keywords, crateId, name) <==> name in p.keywords
    ensures forall name :: Linked(db'.categories, crateId, name) <==> name in p.categories
  {
    var found, id := GetOrInsertCrate(db, p.name, "");
    crateId := id;
    var updated := UpdateCrate(found, crateId, p);
    db' := ReconcileTags(updated, crateId, p);
  }

  function NewVersionRow(crateId: Id, p: Publish, cksum: Checksum): VersionRow {
    VersionRow(crateId, SemVer.Print(p.vers), HexEncode(cksum), false, p.links)
  }

  /** `insert-version.sql`; None is a violation of the unique pair of crate and version, or any other failure, which
      the source does not tell apart. */
  method InsertVersion(db: Db, crateId: Id, p: Publish, cksum: Checksum, insertOk: bool)
    returns (r: Option<(Db, Id)>)
    requires Constraints(db) && crateId in db.crates
    ensures r.None? <==> !insertOk || exists v :: v in db.versions && db.versions[v].crateId == crateId &&
                                                  db.versions[v].version == SemVer.Print(p.vers)
    ensures r.Some? ==> Constraints(r.value.0) && r.value.1 == db.nextId
    ensures r.Some? ==> r.value.0 == WithVersionRow(db, NewVersionRow(crateId, p, cksum))
    ensures r.Some? ==>
              var rows, id := r.value.0.versions, r.value.1;
              id !in db.versions && id in rows && rows == db.versions[id := rows[id]] && rows[id].crateId == crateId &&
              rows[id].version == SemVer.Print(p.vers) && rows[id].cksum == HexEncode(cksum) && !rows[id].yanked &&
              rows[id].links == p.links
  {
    var version := SemVer.Print(p.vers);
    if !insertOk ||
       exists v | v in db.versions :: db.versions[v].crateId == crateId && db.versions[v].version == version {
      return None;
    }
    var row := NewVersionRow(crateId, p, cksum);
    AddVersionRow(db, row);
    return Some((WithVersionRow(db, row), db.nextId));
  }

  /** Rows were added to `crates` and, for one version, to `dependencies`. */
  ghost predicate DependenciesAdded(db: Db, db': Db, version: Id) {
    db' == db.(crates := db'.crates, dependencies := db'.dependencies, nextId := db'.nextId) &&
    db.nextId <= db'.nextId &&
    CratesGrow(db.crates, db'.crates) &&
    (forall d | d in db.dependencies :: d in db'.dependencies && db'.dependencies[d] == db.dependencies[d]) &&
    (forall d | d in db'.dependencies && d !in db.dependencies :: db'.dependencies[d].dependent == version)
  }

  function NewDependencyRow(version: Id, dependency: Id, d: PublishDependency): DependencyRow {
    DependencyRow(version, dependency, d.versionReq, d.features, d.optional, d.defaultFeatures, d.target, d.kind,
                  d.explicitNameInToml)
  }

  function RegistryText(d: PublishDependency): string {
    if d.registry.Some? then d.registry.value else ""
  }

  lemma RowReadsBack(db: Db, version: Id, dependency: Id, d: PublishDependency)
    requires dependency in db.crates && db.crates[dependency].name == d.name
    requires db.crates[dependency].registry == RegistryText(d)
    ensures DependencyAt(WithDependencyRow(db, NewDependencyRow(version, dependency, d)), db.nextId) ==
            StoredDependency(d)
  {
  }

  lemma RowAdded(db: Db, found: Db, version: Id, row: DependencyRow)
    requires IdsBelow(db) && CratesAdded(db, found) && row.dependent == version
    ensures DependenciesAdded(db, WithDependencyRow(found, row), version) && found.nextId !in db.dependencies
  {
  }

  /** `insert-dependency.sql`. */
  method InsertDependency(db: Db, version: Id, d: PublishDependency) returns (db': Db, id: Id)
    requires Constraints(db) && version in db.versions
    ensures Constraints(db') && DependenciesAdded(db, db', version)
    ensures id !in db.dependencies && id in db'.dependencies && db'.dependencies[id].dependent == version
    ensures db'.dependencies == db.dependencies[id := db'.dependencies[id]]
    ensures db'.dependencies[id].dependency in db'.crates && DependencyAt(db', id) == StoredDependency(d)
    ensures var row := db'.dependencies[id];
            db'.crates[row.dependency].name == d.name && row.req == d.versionReq && row.features == d.features &&
            row.optional == d.optional && row.defaultFeatures == d.defaultFeatures && row.target == d.target &&
            row.kind == d.kind && row.package == d.explicitNameInToml &&
            db'.crates[row.dependency].registry == if d.registry.Some? then d.registry.value else ""
  {
    var found, dependency := GetOrInsertCrate(db, d.name, RegistryText(d));
    var row := NewDependencyRow(version, dependency, d);
    AddDependencyRow(found, row);
    RowReadsBack(found, version, dependency, d);
    RowAdded(db, found, version, row);
    return WithDependencyRow(found, row), found.nextId;
  }

  lemma DependenciesAddedMore(a: Db, b: Db, c: Db, version: Id)
    requires DependenciesAdded(a, b, version) && DependenciesAdded(b, c, version)
    ensures DependenciesAdded(a, c, version)
  {
  }

  lemma OneMoreDependency(db: Db, db': Db, version: Id, order: seq<Id>, deps: seq<Dependency>, id: Id)
    requires DependenciesAdded(db, db', version) && DependencyRowsMatch(db, version, order, deps)
    requires id !in db.dependencies && id in db'.dependencies
    requires db'.dependencies == db.dependencies[id := db'.dependencies[id]]
    requires db'.dependencies[id].dependent == version && db'.dependencies[id].dependency in db'.crates
    ensures DependencyRowsMatch(db', version, order + [id], deps + [DependencyAt(db', id)])
  {
    var order' := order + [id];
    forall d ensures d in order' <==> d in db'.dependencies && db'.dependencies[d].dependent == version {
      if d in order {
        assert d in db.dependencies;
      }
    }
    forall i | 0 <= i < |order| ensures DependencyAt(db', order[i]) == deps[i] {
      assert DependencyAt(db, order[i]) == deps[i];
    }
  }

  method InsertNext(start: Db, db: Db, version: Id, d: PublishDependency, ghost order: seq<Id>,
                    ghost done: seq<Dependency>)
    returns (db': Db, ghost order': seq<Id>)
    requires Constraints(db) && version in db.versions
    requires DependenciesAdded(start, db, version) && DependencyRowsMatch(db, version, order, done)
    ensures Constraints(db') && DependenciesAdded(start, db', version)
    ensures DependencyRowsMatch(db', version, order', done + [StoredDependency(d)])
  {
    var next, id := InsertDependency(db, version, d);
    OneMoreDependency(db, next, version, order, done, id);
    DependenciesAddedMore(start, db, next, version);
    return next, order + [id];
  }

  method InsertDependencies(db: Db, version: Id, deps: seq<PublishDependency>) returns (db': Db, ghost order: seq<Id>)
    requires Constraints(db) && version in db.versions
    requires forall d | d in db.dependencies :: db.dependencies[d].dependent != version
    ensures Constraints(db') && DependenciesAdded(db, db', version)
    ensures DependencyRowsMatch(db', version, order, StoredDependencies(deps))
  {
    db', order := db, [];
    ghost var stored := StoredDependencies(deps);
    for i := 0 to |deps|
      invariant Constraints(db') && DependenciesAdded(db, db', version)
      invariant DependencyRowsMatch(db', version, order, stored[..i])
    {
      assert stored[..i + 1] == stored[..i] + [stored[i]];
      db', order := InsertNext(db, db', version, deps[i], order, stored[..i]);
    }
    assert stored[..|deps|] == stored;
  }

  ghost predicate FeaturesAdded(db: Db, db': Db, version: Id) {
    db' == db.(features := db'.features, nextId := db'.nextId) && db.nextId <= db'.nextId &&
    (forall f | f in db.features :: f in db'.features && db'.features[f] == db.features[f]) &&
    (forall f | f in db'.features && f !in db.features :: db'.features[f].crateVersion == version)
  }

  /** All features but `todo` have a row, and those have none. */
  ghost predicate FeatureRowsBut(rows: map<Id, FeatureRow>, version: Id, features: map<string, seq<string>>,
                                 todo: set<string>) {
    (forall f | f in rows && rows[f].crateVersion == version ::
      rows[f].name in features && rows[f].name !in todo && features[rows[f].name] == rows[f].values) &&
    (forall k | k in features && k !in todo ::
      exists f :: f in rows && rows[f].crateVersion == version && rows[f].name == k)
  }

  lemma OneMoreFeature(rows: map<Id, FeatureRow>, version: Id, features: map<string, seq<string>>, todo: set<string>,
                       id: Id, k: string)
    requires FeatureRowsBut(rows, version, features, todo) && id !in rows && k in features && k in todo
    ensures FeatureRowsBut(rows[id := FeatureRow(version, k, features[k])], version, features, todo - {k})
  {
    var rows' := rows[id := FeatureRow(version, k, features[k])];
    forall j | j in features && j !in todo - {k}
      ensures exists f :: f in rows' && rows'[f].crateVersion == version && rows'[f].name == j
    {
      if j == k {
        assert id in rows' && rows'[id].name == j;
      } else {
        var f :| f in rows && rows[f].crateVersion == version && rows[f].name == j;
        assert f in rows' && rows'[f] == rows[f];
      }
    }
  }

  lemma FeatureAddedMore(a: Db, b: Db, version: Id, row: FeatureRow)
    requires FeaturesAdded(a, b, version) && b.nextId !in b.features && row.crateVersion == version
    ensures FeaturesAdded(a, WithFeatureRow(b, row), version)
  {
  }

  method InsertFeature(start: Db, db: Db, version: Id, features: map<string, seq<string>>, ghost todo: set<string>,
                       k: string)
    returns (db': Db)
    requires Constraints(db) && version in db.versions && k in features && k in todo
    requires FeaturesAdded(start, db, version) && FeatureRowsBut(db.features, version, features, todo)
    ensures Constraints(db') && version in db'.versions
    ensures FeaturesAdded(start, db', version) && FeatureRowsBut(db'.features, version, features, todo - {k})
  {
    var row := FeatureRow(version, k, features[k]);
    AddFeatureRow(db, row);
    FeatureAddedMore(start, db, version, row);
    OneMoreFeature(db.features, version, features, todo, db.nextId, k);
    return WithFeatureRow(db, row);
  }

  /** One row a feature, in no particular order. */
  method InsertFeatures(db: Db, version: Id, features: map<string, seq<string>>) returns (db': Db)
    requires Constraints(db) && version in db.versions
    requires forall f | f in db.features :: db.features[f].crateVersion != version
    ensures Constraints(db') && FeaturesAdded(db, db', version)
    ensures FeatureRowsMatch(db'.features, version, features)
  {
    db' := db;
    var todo := features.Keys;
    while todo != {}
      invariant todo <= features.Keys
      invariant Constraints(db') && version in db'.versions && FeaturesAdded(db, db', version)
      invariant FeatureRowsBut(db'.features, version, features, todo)
      decreases |todo|
    {
      var k :| k in todo;
      db' := InsertFeature(db, db', version, features, todo, k);
      todo := todo - {k};
    }
  }

  // ---- A publication as a whole ----

  /** `db'` is `db` with one more version row and the rows that belong to it. */
  ghost predicate ReleaseAdded(db: Db, db': Db, version: Id, row: VersionRow) {
    CratesKept(db.crates, db'.crates) && version !in db.versions && db'.versions == db.versions[version := row] &&
    (forall d | d in db.dependencies :: d in db'.dependencies && db'.dependencies[d] == db.dependencies[d]) &&
    (forall d | d in db'.dependencies && d !in db.dependencies :: db'.dependencies[d].dependent == version) &&
    (forall f | f in db.features :: f in db'.features && db'.features[f] == db.features[f]) &&
    (forall f | f in db'.features && f !in db.features :: db'.features[f].crateVersion == version)
  }

  lemma FeatureRowsKept(db: Db, db': Db, version: Id, row: VersionRow, v: Id, features: map<string, seq<string>>)
    requires ReleaseAdded(db, db', version, row) && v != version && FeatureRowsMatch(db.features, v, features)
    ensures FeatureRowsMatch(db'.features, v, features)
  {
    forall k | k in features
      ensures exists f :: f in db'.features && db'.features[f].crateVersion == v && db'.features[f].name == k
    {
      var f :| f in db.features && db.features[f].crateVersion == v && db.features[f].name == k;
      assert db'.features[f] == db.features[f];
    }
  }

  lemma OldReleaseKept(db: Db, db': Db, version: Id, row: VersionRow, order: map<Id, seq<Id>>, ids: seq<Id>, v: Id,
                       e: CrateVersion)
    requires ReleaseAdded(db, db', version, row) && ReleaseMatches(db, order, v, e)
    ensures ReleaseMatches(db', order[version := ids], v, e)
  {
    DependencyRowsKept(db, db', v, order[v], e.deps);
    FeatureRowsKept(db, db', version, row, v, e.features);
  }

  lemma CommitRows(db: Db, db': Db, version: Id, row: VersionRow, order: map<Id, seq<Id>>, ids: seq<Id>,
                   committed: map<Key, CrateVersion>, key: Key, e: CrateVersion)
    requires RowsCommitted(db, order, committed) && ReleaseAdded(db, db', version, row) && key !in committed
    requires row.crateId in db'.crates && db'.crates[row.crateId].registry == ""
    requires key == (db'.crates[row.crateId].name, row.version) && e.name == key.0
    requires ReleaseMatches(db', order[version := ids], version, e)
    ensures RowsCommitted(db', order[version := ids], committed[key := e])
  {
    var order', committed' := order[version := ids], committed[key := e];
    forall v | v in db'.versions ensures RowCommitted(db', order', committed', v) {
      if v != version {
        assert RowCommitted(db, order, committed, v);
        OldReleaseKept(db, db', version, row, order, ids, v, committed[KeyOf(db, v)]);
      }
    }
  }

  lemma CommitHasRows(db: Db, db': Db, version: Id, row: VersionRow, committed: map<Key, CrateVersion>, key: Key,
                      e: CrateVersion)
    requires CommittedHaveRows(db, committed) && ReleaseAdded(db, db', version, row)
    requires row.crateId in db'.crates && db'.crates[row.crateId].registry == ""
    requires key == (db'.crates[row.crateId].name, row.version)
    ensures CommittedHaveRows(db', committed[key := e])
  {
    var committed' := committed[key := e];
    forall k | k in committed' ensures HasRow(db', k) {
      if k == key {
        assert OwnRow(db', version) && KeyOf(db', version) == key;
      } else {
        assert HasRow(db, k);
        var v :| v in db.versions && OwnRow(db, v) && KeyOf(db, v) == k;
        assert OwnRow(db', v) && KeyOf(db', v) == k;
      }
    }
  }

  lemma CommitRepresents(db: Db, db': Db, version: Id, row: VersionRow, order: map<Id, seq<Id>>, ids: seq<Id>,
                         committed: map<Key, CrateVersion>, key: Key, e: CrateVersion)
    requires Represents(db, order, committed) && ReleaseAdded(db, db', version, row) && key !in committed
    requires row.crateId in db'.crates && db'.crates[row.crateId].registry == ""
    requires key == (db'.crates[row.crateId].name, row.version) && e.name == key.0
    requires ReleaseMatches(db', order[version := ids], version, e)
    ensures Represents(db', order[version := ids], committed[key := e])
  {
    CommitRows(db, db', version, row, order, ids, committed, key, e);
    CommitHasRows(db, db', version, row, committed, key, e);
  }

  /** The unique constraint on version rows is violated exactly by a release committed before. */
  lemma ConflictExactly(db: Db, order: map<Id, seq<Id>>, committed: map<Key, CrateVersion>, crateId: Id,
                        version: string)
    requires Constraints(db) && Represents(db, order, committed)
    requires crateId in db.crates && db.crates[crateId].registry == ""
    ensures (db.crates[crateId].name, version) in committed <==>
            exists v :: v in db.versions && db.versions[v].crateId == crateId && db.versions[v].version == version
  {
    var key := (db.crates[crateId].name, version);
    if key in committed {
      assert HasRow(db, key);
      var v :| v in db.versions && OwnRow(db, v) && KeyOf(db, v) == key;
      assert db.versions[v].crateId == crateId;
    }
    if v :| v in db.versions && db.versions[v].crateId == crateId && db.versions[v].version == version {
      assert RowCommitted(db, order, committed, v);
    }
  }

  /** The row, keywords and categories of a published crate, column by column. */
  lemma PublishedColumns(db: Db, db': Db, crateId: Id, p: Publish)
    requires Published(db, db', crateId, p)
    ensures var row := db'.crates[crateId];
            row.name == p.name && row.registry == "" && row.description == p.description &&
            row.documentation == p.documentation && row.homepage == p.homepage && row.repository == p.repository
    ensures forall name :: Linked(db'.keywords, crateId, name) <==> name in p.keywords
    ensures forall name :: Linked(db'.categories, crateId, name) <==> name in p.categories
    ensures forall i | i in db.crates && i != crateId :: i in db'.crates && db'.crates[i] == db.crates[i]
  {
  }

  /** A crate first seen as a dependency keeps its identity when it is published itself. */
  lemma CrateKeepsItsId(db: Db, db': Db, crateId: Id, p: Publish, i: Id)
    requires CratesUnique(db'.crates) && CratesKept(db.crates, db'.crates) && Published(db, db', crateId, p)
    requires i in db.crates && db.crates[i].name == p.name && db.crates[i].registry == ""
    ensures crateId == i
    ensures forall d | d in db.dependencies && d in db'.dependencies && db.dependencies[d].dependency == i &&
                       db'.dependencies[d] == db.dependencies[d] :: db'.dependencies[d].dependency == crateId
  {
    assert db'.crates[i].name == db'.crates[crateId].name && db'.crates[i].registry == db'.crates[crateId].registry;
  }

  class PgIndexProvider {
    var db: Db
    /** The releases committed so far, and for each version row its dependency rows in the order of publication. */
    ghost var committed: map<Key, CrateVersion>
    ghost var order: map<Id, seq<Id>>

    ghost predicate Valid()
      reads this
    {
      Good(db, order, committed)
    }

    constructor ()
      ensures Valid() && committed == map[] && db == EMPTY
    {
      db, committed, order := EMPTY, map[], map[];
    }

    /** One transaction. The end step runs after its last statement and before its commit, so the tarball is there
        before the release is. */
    method PublishRelease(p: Publish, tarballChecksum: Checksum, endStep: EndStep, tx: Transaction)
      returns (r: Result<(), IndexError>)
      requires Valid() && SemVer.WellFormed(p.vers) && !endStep.storedCrate && (endStep.ok ==> endStep.written)
      modifies this, endStep`storedCrate, endStep.storage
      ensures Valid() && Attempted(old(db), db, p, r)
      ensures var op := PublishCrate(p, tarballChecksum, endStep.crateBytes);
              PublishedAs(op, tx, endStep.ok, old(committed), committed, endStep.storedCrate, r) &&
              endStep.storage.bucket ==
                if Refusal(PgAccepts(old(committed), op), tx).None? then
                  endStep.Uploaded(old(endStep.storage.bucket))
                else old(endStep.storage.bucket)
      ensures var key := (p.name, SemVer.Print(p.vers));
              r == (if !tx.crateOk then Err(ServiceError)
                    else if key in old(committed) || !tx.insertOk then Err(Conflict)
                    else if tx.rowsOk && endStep.ok && tx.commitOk then Ok(()) else Err(ServiceError)) &&
              committed == (if r.Ok? then old(committed)[key := StoredRelease(p, tarballChecksum)]
                            else old(committed)) &&
              endStep.storedCrate ==
                (tx.crateOk && tx.insertOk && key !in old(committed) && tx.rowsOk && endStep.ok) &&
              (endStep.storage.bucket == old(endStep.storage.bucket) ||
               (tx.crateOk && tx.insertOk && key !in old(committed) && tx.rowsOk))
      ensures r.Ok? ==> exists id :: id in db.crates && RowOf(db, id, p)
    {
      ghost var before := committed;
      r := Publish(p, tarballChecksum, endStep, tx);
      PublishedAnswers(p, tarballChecksum, endStep.crateBytes, tx, endStep.ok, before, committed, endStep.storedCrate,
                       r);
      if r.Ok? {
        PublishedHasRow(old(db), db, p);
      }
    }

    method Publish(p: Publish, tarballChecksum: Checksum, endStep: EndStep, tx: Transaction)
      returns (r: Result<(), IndexError>)
      requires Valid() && SemVer.WellFormed(p.vers) && !endStep.storedCrate && (endStep.ok ==> endStep.written)
      modifies this, endStep`storedCrate, endStep.storage
      ensures Valid() && Attempted(old(db), db, p, r)
      ensures var op := PublishCrate(p, tarballChecksum, endStep.crateBytes);
              PublishedAs(op, tx, endStep.ok, old(committed), committed, endStep.storedCrate, r) &&
              endStep.storage.bucket ==
                if Refusal(PgAccepts(old(committed), op), tx).None? then
                  endStep.Uploaded(old(endStep.storage.bucket))
                else old(endStep.storage.bucket)
    {
      var filled;
      ghost var order', committed';
      filled, order', committed' := Prepared(db, p, tarballChecksum, tx, order, committed);
      if filled.Err? {
        return Err(filled.error);
      }
      r := RunEndStep(endStep, tx.commitOk);
      if r.Ok? {
        db, order, committed := filled.value, order', committed';
      }
    }

    /** `yank_crate` and `unyank_crate`. */
    method SetYank(name: string, version: SemVer.Version, val: bool) returns (r: Result<(), IndexError>)
      requires Valid()
      modifies this
      ensures Valid()
      ensures r == if PgAccepts(old(committed), Op.SetYank(name, version, val)) then Ok(()) else Err(Conflict)
      ensures committed == PgDoes(old(committed), Op.SetYank(name, version, val))
      ensures var key := (name, SemVer.Print(version));
              if key in old(committed) then
                r.Ok? && committed == old(committed)[key := old(committed)[key].(yanked := val)]
              else r == Err(Conflict) && committed == old(committed)
      ensures db == old(db).(versions := db.versions)
    {
      r, db := YankInner(db, name, SemVer.Print(version), val, order, committed);
      if r.Ok? {
        committed := Yanked(committed, ReleaseKey(name, version), val);
      }
    }

    /** An unknown crate is not found; a crate known only as a dependency has an empty list. */
    method GetSparseEntry(name: string) returns (r: Result<seq<CrateVersion>, IndexError>)
      requires Valid()
      ensures r.Err? <==> !Known(db, name)
      ensures r.Err? ==> r.error == NotFound
      ensures r.Ok? ==> Serves(committed, name, r.value)
    {
      r := ReadEntry(db, name, order, committed);
    }

    method ConfirmExistence(name: string, version: SemVer.Version) returns (r: Result<(bool, Checksum), IndexError>)
      requires Valid()
      ensures var key := ReleaseKey(name, version);
              r == if key in committed then Ok((committed[key].yanked, committed[key].cksum)) else Err(NotFound)
    {
      r := PgYank.ConfirmExistence(db, name, SemVer.Print(version), order, committed);
    }
  }

  ghost predicate PublishedAs(op: Op, tx: Transaction, endStepOk: bool, before: map<Key, CrateVersion>,
                              after: map<Key, CrateVersion>, stored: bool, r: Result<(), IndexError>)
    requires op.PublishCrate?
  {
    var refusal := Refusal(PgAccepts(before, op), tx);
    r == PublishResult(refusal, endStepOk, tx) && after == (if r.Ok? then PgDoes(before, op) else before) &&
    stored == (refusal.None? && endStepOk)
  }

  lemma PublishedAnswers(p: Publish, cksum: Checksum, tarball: seq<Byte>, tx: Transaction, endStepOk: bool,
                         before: map<Key, CrateVersion>, after: map<Key, CrateVersion>, stored: bool,
                         r: Result<(), IndexError>)
    requires PublishedAs(PublishCrate(p, cksum, tarball), tx, endStepOk, before, after, stored, r)
    ensures var key := (p.name, SemVer.Print(p.vers));
            r == (if !tx.crateOk then Err(ServiceError)
                  else if key in before || !tx.insertOk then Err(Conflict)
                  else if tx.rowsOk && endStepOk && tx.commitOk then Ok(()) else Err(ServiceError)) &&
            after == (if r.Ok? then before[key := StoredRelease(p, cksum)] else before) &&
            stored == (tx.crateOk && tx.insertOk && key !in before && tx.rowsOk && endStepOk)
  {
  }

  /** The row is the one of the published crate, with each text in its own column and exactly its tags. */
  ghost predicate RowOf(db: Db, id: Id, p: Publish)
    requires id in db.crates
  {
    db.crates[id].name == p.name && db.crates[id].registry == "" &&
    db.crates[id].description == p.description && db.crates[id].documentation == p.documentation &&
    db.crates[id].homepage == p.homepage && db.crates[id].repository == p.repository &&
    (forall name :: Linked(db.keywords, id, name) <==> name in p.keywords) &&
    (forall name :: Linked(db.categories, id, name) <==> name in p.categories)
  }

  lemma PublishedHasRow(db: Db, db': Db, p: Publish)
    requires Attempted(db, db', p, Ok(()))
    ensures exists id :: id in db'.crates && RowOf(db', id, p)
  {
    var crateId :| Published(db, db', crateId, p);
    PublishedColumns(db, db', crateId, p);
    assert RowOf(db', crateId, p);
  }

  /** What an attempt to publish leaves behind. */
  ghost predicate Attempted(db: Db, db': Db, p: Publish, r: Result<(), IndexError>) {
    if r.Ok? then CratesKept(db.crates, db'.crates) && exists crateId :: Published(db, db', crateId, p) else db' == db
  }

  /** What follows the last statement: the end step, then the commit. */
  method RunEndStep(endStep: EndStep, commitOk: bool) returns (r: Result<(), IndexError>)
    requires !endStep.storedCrate && (endStep.ok ==> endStep.written)
    modifies endStep`storedCrate, endStep.storage
    ensures r == if endStep.ok && commitOk then Ok(()) else Err(ServiceError)
    ensures endStep.storedCrate == endStep.ok && endStep.storage.bucket == endStep.Uploaded(old(endStep.storage.bucket))
  {
    r := endStep.Run();
    if r.Ok? && !commitOk {
      return Err(ServiceError);
    }
  }

  ghost predicate IsRefusal(filled: Result<Db, IndexError>, refusal: Option<IndexError>) {
    if filled.Ok? then refusal.None? else refusal == Some(filled.error)
  }

  /** The transaction up to its end step: the tables to commit, or a refusal. */
  method Prepared(db: Db, p: Publish, cksum: Checksum, tx: Transaction, ghost order: map<Id, seq<Id>>,
                  ghost committed: map<Key, CrateVersion>)
    returns (filled: Result<Db, IndexError>, ghost order': map<Id, seq<Id>>, ghost committed': map<Key, CrateVersion>)
    requires Good(db, order, committed) && SemVer.WellFormed(p.vers)
    ensures IsRefusal(filled, Refusal(ReleaseKey(p.name, p.vers) !in committed, tx))
    ensures filled.Ok? ==> Good(filled.value, order', committed') && Attempted(db, filled.value, p, Ok(()))
    ensures committed' == if filled.Ok? then committed[ReleaseKey(p.name, p.vers) := StoredRelease(p, cksum)]
                          else committed
  {
    ghost var version, crateId, ids;
    filled, version, crateId, ids := Transact(db, p, cksum, tx, order, committed);
    order', committed' := order, committed;
    if filled.Ok? {
      order' := order[version := ids];
      committed' := committed[ReleaseKey(p.name, p.vers) := StoredRelease(p, cksum)];
    }
  }

  /** Every statement of a publication. */
  method Transact(db: Db, p: Publish, cksum: Checksum, tx: Transaction, ghost order: map<Id, seq<Id>>,
                  ghost committed: map<Key, CrateVersion>)
    returns (filled: Result<Db, IndexError>, ghost version: Id, ghost crateId: Id, ghost ids: seq<Id>)
    requires Good(db, order, committed) && SemVer.WellFormed(p.vers)
    ensures IsRefusal(filled, Refusal(ReleaseKey(p.name, p.vers) !in committed, tx))
    ensures filled.Ok? ==> CratesKept(db.crates, filled.value.crates) && Published(db, filled.value, crateId, p)
    ensures filled.Ok? ==>
              Good(filled.value, order[version := ids],
                   committed[ReleaseKey(p.name, p.vers) := StoredRelease(p, cksum)])
  {
    var prepared, id := PrepareCrate(db, p);
    version, crateId, ids := 0, id, [];
    if !tx.crateOk {
      return Err(ServiceError), version, crateId, ids;
    }
    UntouchedRepresents(db, prepared, order, committed);
    filled, version, ids := InsertRelease(prepared, id, p, cksum, tx, order, committed);
    if filled.Ok? {
      PublishedThen(db, prepared, filled.value, id, p);
    }
  }

  lemma PublishedThen(db: Db, prepared: Db, filled: Db, crateId: Id, p: Publish)
    requires CratesKept(db.crates, prepared.crates) && CratesGrow(prepared.crates, filled.crates)
    requires Published(db, prepared, crateId, p)
    requires filled.keywords == prepared.keywords && filled.categories == prepared.categories
    ensures CratesKept(db.crates, filled.crates) && Published(db, filled, crateId, p)
  {
  }

  /** From the version row to the last feature row. */
  method InsertRelease(db: Db, crateId: Id, p: Publish, cksum: Checksum, tx: Transaction,
                       ghost order: map<Id, seq<Id>>, ghost committed: map<Key, CrateVersion>)
    returns (filled: Result<Db, IndexError>, ghost version: Id, ghost ids: seq<Id>)
    requires Good(db, order, committed) && SemVer.WellFormed(p.vers) && tx.crateOk
    requires crateId in db.crates && db.crates[crateId].name == p.name && db.crates[crateId].registry == ""
    ensures IsRefusal(filled, Refusal(ReleaseKey(p.name, p.vers) !in committed, tx))
    ensures filled.Ok? ==> CratesGrow(db.crates, filled.value.crates) &&
                           filled.value.keywords == db.keywords && filled.value.categories == db.categories
    ensures filled.Ok? ==>
              Good(filled.value, order[version := ids],
                   committed[ReleaseKey(p.name, p.vers) := StoredRelease(p, cksum)])
  {
    version, ids := db.nextId, [];
    ConflictExactly(db, order, committed, crateId, SemVer.Print(p.vers));
    var inserted := InsertVersion(db, crateId, p, cksum, tx.insertOk);
    if inserted.None? {
      return Err(Conflict), version, ids;
    }
    var done;
    done, ids := FillRelease(db, inserted.value.0, inserted.value.1, crateId, p, cksum, order, committed);
    return if tx.rowsOk then Ok(done) else Err(ServiceError), version, ids;
  }

  /** The dependency and feature rows of a new version, which complete its release. */
  method FillRelease(prepared: Db, db: Db, version: Id, crateId: Id, p: Publish, cksum: Checksum,
                     ghost order: map<Id, seq<Id>>, ghost committed: map<Key, CrateVersion>)
    returns (db': Db, ghost ids: seq<Id>)
    requires Good(prepared, order, committed)
    requires Constraints(db) && version == prepared.nextId && SemVer.WellFormed(p.vers)
    requires crateId in prepared.crates && prepared.crates[crateId].name == p.name &&
             prepared.crates[crateId].registry == ""
    requires db == WithVersionRow(prepared, NewVersionRow(crateId, p, cksum))
    requires ReleaseKey(p.name, p.vers) !in committed
    ensures CratesGrow(prepared.crates, db'.crates)
    ensures db'.keywords == prepared.keywords && db'.categories == prepared.categories
    ensures Good(db', order[version := ids],
                       committed[ReleaseKey(p.name, p.vers) := StoredRelease(p, cksum)])
  {
    var withDeps;
    withDeps, ids := InsertDependencies(db, version, p.deps);
    db' := InsertFeatures(withDeps, version, p.features);
    NewReleaseMatches(prepared, db, withDeps, db', version, crateId, p, cksum, ids, order);
    CommitRepresents(prepared, db', version, NewVersionRow(crateId, p, cksum), order, ids, committed,
                     ReleaseKey(p.name, p.vers), StoredRelease(p, cksum));
  }

  lemma NewReleaseMatches(prepared: Db, db: Db, withDeps: Db, db': Db, version: Id, crateId: Id, p: Publish,
                          cksum: Checksum, ids: seq<Id>, order: map<Id, seq<Id>>)
    requires IdsBelow(prepared) && version == prepared.nextId && SemVer.WellFormed(p.vers)
    requires db == WithVersionRow(prepared, NewVersionRow(crateId, p, cksum))
    requires DependenciesAdded(db, withDeps, version) && FeaturesAdded(withDeps, db', version)
    requires DependencyRowsMatch(withDeps, version, ids, StoredDependencies(p.deps))
    requires FeatureRowsMatch(db'.features, version, p.features)
    ensures ReleaseAdded(prepared, db', version, NewVersionRow(crateId, p, cksum))
    ensures ReleaseMatches(db', order[version := ids], version, StoredRelease(p, cksum))
  {
    DependencyRowsKept(withDeps, db', version, ids, StoredDependencies(p.deps));
  }
}
