/** The Postgres tables of the index, the constraints on them, and what the rows of a release stand for. */
module PgTables {
  import opened Bytes
  import opened IndexOps
  import opened PgTags
  import opened RegistryTypes
  import opened Wrappers
  import SemVer

  datatype CrateRow = CrateRow(
    name: string, registry: string, description: Option<string>, documentation: Option<string>,
    homepage: Option<string>, repository: Option<string>)

  datatype VersionRow = VersionRow(crateId: Id, version: string, cksum: string, yanked: bool, links: Option<string>)

  datatype DependencyRow = DependencyRow(
    dependent: Id, dependency: Id, req: VersionReq, features: seq<string>, optional: bool, defaultFeatures: bool,
    target: Option<string>, kind: DependencyKind, package: Option<string>)

  datatype FeatureRow = FeatureRow(crateVersion: Id, name: string, values: seq<string>)

  /** Rows by identity; identities are drawn from `nextId` upwards. */
  datatype Db = Db(
    crates: map<Id, CrateRow>, versions: map<Id, VersionRow>, dependencies: map<Id, DependencyRow>,
    features: map<Id, FeatureRow>, keywords: TagTables, categories: TagTables, nextId: Id)

  const EMPTY: Db := Db(map[], map[], map[], map[], TagTables(map[], map[]), TagTables(map[], map[]), 0)

  // ---- Constraints ----

  ghost predicate CratesUnique(crates: map<Id, CrateRow>) {
    forall i, j | i in crates && j in crates && crates[i].name == crates[j].name &&
                  crates[i].registry == crates[j].registry :: i == j
  }

  ghost predicate VersionsUnique(versions: map<Id, VersionRow>) {
    forall i, j | i in versions && j in versions && versions[i].crateId == versions[j].crateId &&
                  versions[i].version == versions[j].version :: i == j
  }

  ghost predicate FeaturesUnique(features: map<Id, FeatureRow>) {
    forall i, j | i in features && j in features && features[i].crateVersion == features[j].crateVersion &&
                  features[i].name == features[j].name :: i == j
  }

  ghost predicate IdsBelow(db: Db) {
    (forall i | i in db.crates :: i < db.nextId) && (forall i | i in db.versions :: i < db.nextId) &&
    (forall i | i in db.dependencies :: i < db.nextId) && (forall i | i in db.features :: i < db.nextId)
  }

  ghost predicate ForeignKeys(db: Db) {
    (forall i | i in db.versions :: db.versions[i].crateId in db.crates) &&
    (forall i | i in db.dependencies ::
      db.dependencies[i].dependent in db.versions && db.dependencies[i].dependency in db.crates) &&
    (forall i | i in db.features :: db.features[i].crateVersion in db.versions)
  }

  ghost predicate LinksOwned(crates: map<Id, CrateRow>, tags: TagTables) {
    forall l | l in tags.links :: tags.links[l].crateId in crates
  }

  ghost predicate TagsGood(db: Db) {
    TagsSound(db.keywords, db.nextId) && TagsSound(db.categories, db.nextId) &&
    LinksOwned(db.crates, db.keywords) && LinksOwned(db.crates, db.categories)
  }

  ghost predicate Constraints(db: Db) {
    IdsBelow(db) && CratesUnique(db.crates) && VersionsUnique(db.versions) && FeaturesUnique(db.features) &&
    ForeignKeys(db) && TagsGood(db)
  }

  /** The second half of `insert-dependency.sql`. */
  function WithDependencyRow(db: Db, row: DependencyRow): Db {
    db.(dependencies := db.dependencies[db.nextId := row], nextId := db.nextId + 1)
  }

  /** `insert-features.sql`. */
  function WithFeatureRow(db: Db, row: FeatureRow): Db {
    db.(features := db.features[db.nextId := row], nextId := db.nextId + 1)
  }

  /** `insert-version.sql`, if its unique constraint allows. */
  function WithVersionRow(db: Db, row: VersionRow): Db {
    db.(versions := db.versions[db.nextId := row], nextId := db.nextId + 1)
  }

  lemma AddDependencyRow(db: Db, row: DependencyRow)
    requires Constraints(db) && row.dependent in db.versions && row.dependency in db.crates
    ensures Constraints(WithDependencyRow(db, row))
  {
  }

  lemma AddFeatureRow(db: Db, row: FeatureRow)
    requires Constraints(db) && row.crateVersion in db.versions
    requires forall f | f in db.features ::
      db.features[f].crateVersion != row.crateVersion || db.features[f].name != row.name
    ensures Constraints(WithFeatureRow(db, row))
  {
  }

  lemma AddVersionRow(db: Db, row: VersionRow)
    requires Constraints(db) && row.crateId in db.crates
    requires forall v | v in db.versions ::
      db.versions[v].crateId != row.crateId || db.versions[v].version != row.version
    ensures Constraints(WithVersionRow(db, row))
  {
  }

  // ---- What a release's rows stand for ----

  /** A dependency read back: the crate's name, and no registry for the registry of the index itself. */
  function DependencyAt(db: Db, i: Id): Dependency
    requires i in db.dependencies && db.dependencies[i].dependency in db.crates
  {
    var row := db.dependencies[i];
    var c := db.crates[row.dependency];
    Dependency(c.name, row.req, row.features, row.optional, row.defaultFeatures, row.target, row.kind,
               if c.registry == "" then None else Some(c.registry), row.package)
  }

  /** The dependency Postgres will read back for one that is published. */
  function StoredDependency(d: PublishDependency): Dependency {
    Dependency(d.name, d.versionReq, d.features, d.optional, d.defaultFeatures, d.target, d.kind,
               if d.registry == Some("") then None else d.registry, d.explicitNameInToml)
  }

  function StoredDependencies(deps: seq<PublishDependency>): (r: seq<Dependency>)
    ensures |r| == |deps|
  {
    seq(|deps|, i requires 0 <= i < |deps| => StoredDependency(deps[i]))
  }

  /** The index entry of a publication, as Postgres serves it. */
  function StoredRelease(p: Publish, cksum: Checksum): CrateVersion {
    CrateVersion(p.name, p.vers, StoredDependencies(p.deps), cksum, p.features, false, p.links, 2, map[])
  }

  predicate KeptFaithfully(d: PublishDependency) {
    (d.explicitNameInToml.None? || d.explicitNameInToml == Some(d.name)) && d.registry != Some("")
  }

  /** The two indexes serve one entry for a publication exactly when no dependency is renamed to another name and
      none names the empty registry. */
  lemma StoredReleaseExactly(p: Publish, cksum: Checksum)
    ensures StoredRelease(p, cksum) == ReleaseOf(p, cksum) <==>
            forall i | 0 <= i < |p.deps| ::
              KeptFaithfully(p.deps[i])
  {
    var pg, fs := StoredDependencies(p.deps), DependenciesOf(p.deps);
    forall i | 0 <= i < |p.deps|
      ensures pg[i] == fs[i] <==> KeptFaithfully(p.deps[i])
    {
    }
  }

  /** The rows of one release: `order` lists its dependency rows in the order of publication. */
  ghost predicate DependencyRowsMatch(db: Db, version: Id, order: seq<Id>, deps: seq<Dependency>) {
    |order| == |deps| &&
    (forall i, j | 0 <= i < j < |order| :: order[i] != order[j]) &&
    (forall d :: d in order <==> d in db.dependencies && db.dependencies[d].dependent == version) &&
    (forall i | 0 <= i < |order| ::
      order[i] in db.dependencies && db.dependencies[order[i]].dependency in db.crates &&
      DependencyAt(db, order[i]) == deps[i])
  }

  ghost predicate FeatureRowsMatch(rows: map<Id, FeatureRow>, version: Id, features: map<string, seq<string>>) {
    (forall f | f in rows && rows[f].crateVersion == version ::
      rows[f].name in features && features[rows[f].name] == rows[f].values) &&
    (forall k | k in features :: exists f :: f in rows && rows[f].crateVersion == version && rows[f].name == k)
  }

  ghost predicate VersionRowMatches(row: VersionRow, e: CrateVersion) {
    row.version == SemVer.Print(e.vers) && SemVer.WellFormed(e.vers) && row.cksum == HexEncode(e.cksum) &&
    row.yanked == e.yanked && row.links == e.links && e.v == 2 && e.features2 == map[]
  }

  type Key = (string, string)

  function ReleaseKey(name: string, vers: SemVer.Version): Key {
    (name, SemVer.Print(vers))
  }

  /** The name and the version text of a version row, if it is a release of the index itself. */
  function KeyOf(db: Db, version: Id): Key
    requires version in db.versions && db.versions[version].crateId in db.crates
  {
    (db.crates[db.versions[version].crateId].name, db.versions[version].version)
  }

  ghost predicate ReleaseMatches(db: Db, order: map<Id, seq<Id>>, version: Id, e: CrateVersion) {
    version in db.versions && version in order &&
    VersionRowMatches(db.versions[version], e) &&
    DependencyRowsMatch(db, version, order[version], e.deps) &&
    FeatureRowsMatch(db.features, version, e.features)
  }

  /** The version row is one committed release, of a crate of the index itself. */
  ghost predicate RowCommitted(db: Db, order: map<Id, seq<Id>>, committed: map<Key, CrateVersion>, v: Id)
    requires v in db.versions
  {
    OwnRow(db, v) && KeyOf(db, v) in committed && committed[KeyOf(db, v)].name == KeyOf(db, v).0 &&
    ReleaseMatches(db, order, v, committed[KeyOf(db, v)])
  }

  ghost predicate OwnRow(db: Db, v: Id)
    requires v in db.versions
  {
    db.versions[v].crateId in db.crates && db.crates[db.versions[v].crateId].registry == ""
  }

  /** The triggers keep these two from being used where they are not mentioned. */
  ghost predicate RowsCommitted(db: Db, order: map<Id, seq<Id>>, committed: map<Key, CrateVersion>) {
    forall v {:trigger RowCommitted(db, order, committed, v)} | v in db.versions ::
      RowCommitted(db, order, committed, v)
  }

  ghost predicate HasRow(db: Db, key: Key) {
    exists v :: v in db.versions && OwnRow(db, v) && KeyOf(db, v) == key
  }

  /** Each committed release has a version row. */
  ghost predicate CommittedHaveRows(db: Db, committed: map<Key, CrateVersion>) {
    forall key {:trigger HasRow(db, key)} | key in committed :: HasRow(db, key)
  }

  /** Version rows and committed releases correspond. */
  ghost predicate Represents(db: Db, order: map<Id, seq<Id>>, committed: map<Key, CrateVersion>) {
    order.Keys == db.versions.Keys && RowsCommitted(db, order, committed) && CommittedHaveRows(db, committed)
  }

  /** The tables keep their constraints and stand for exactly the committed releases. */
  ghost predicate Good(db: Db, order: map<Id, seq<Id>>, committed: map<Key, CrateVersion>) {
    Constraints(db) && Represents(db, order, committed)
  }

  // ---- Changes that leave the releases alone ----

  ghost predicate CratesKept(crates: map<Id, CrateRow>, crates': map<Id, CrateRow>) {
    forall i | i in crates ::
      i in crates' && crates'[i].name == crates[i].name && crates'[i].registry == crates[i].registry
  }

  /** Crates, keywords and categories may change, releases do not. */
  ghost predicate ReleasesUntouched(db: Db, db': Db) {
    CratesKept(db.crates, db'.crates) && db'.versions == db.versions && db'.dependencies == db.dependencies &&
    db'.features == db.features && db.nextId <= db'.nextId
  }

  lemma DependencyRowsKept(db: Db, db': Db, version: Id, order: seq<Id>, deps: seq<Dependency>)
    requires CratesKept(db.crates, db'.crates) && DependencyRowsMatch(db, version, order, deps)
    requires forall d | d in db.dependencies :: d in db'.dependencies && db'.dependencies[d] == db.dependencies[d]
    requires forall d | d in db'.dependencies && db'.dependencies[d].dependent == version :: d in db.dependencies
    ensures DependencyRowsMatch(db', version, order, deps)
  {
    forall d ensures d in order <==> d in db'.dependencies && db'.dependencies[d].dependent == version {
      if d in order {
        assert d in db.dependencies;
      }
    }
  }

  lemma UntouchedRepresents(db: Db, db': Db, order: map<Id, seq<Id>>, committed: map<Key, CrateVersion>)
    requires Represents(db, order, committed) && ReleasesUntouched(db, db')
    ensures Represents(db', order, committed)
  {
    forall v | v in db'.versions ensures RowCommitted(db', order, committed, v) {
      assert RowCommitted(db, order, committed, v);
      DependencyRowsKept(db, db', v, order[v], committed[KeyOf(db, v)].deps);
    }
    forall key | key in committed ensures HasRow(db', key) {
      assert HasRow(db, key);
      var v :| v in db.versions && OwnRow(db, v) && KeyOf(db, v) == key;
      assert OwnRow(db', v) && KeyOf(db', v) == key;
    }
  }

  // ---- Columns ----

  /** What Postgres serves for a published dependency, field by field: the original name, and the alias as package. */
  lemma StoredDependencyFields(d: PublishDependency)
    ensures var r := StoredDependency(d);
            r.name == d.name && r.package == d.explicitNameInToml && r.req == d.versionReq &&
            r.features == d.features && r.optional == d.optional && r.defaultFeatures == d.defaultFeatures &&
            r.target == d.target && r.kind == d.kind
    ensures d.registry != Some("") ==> StoredDependency(d).registry == d.registry
    ensures d.registry == Some("") ==> StoredDependency(d).registry == None
  {
  }

  lemma StoredReleaseFields(p: Publish, cksum: Checksum)
    ensures var e := StoredRelease(p, cksum);
            e.name == p.name && e.vers == p.vers && e.cksum == cksum && e.features == p.features && !e.yanked &&
            e.links == p.links && e.v == 2 && e.features2 == map[] && |e.deps| == |p.deps| &&
            forall i | 0 <= i < |p.deps| :: e.deps[i] == StoredDependency(p.deps[i])
  {
  }
}
