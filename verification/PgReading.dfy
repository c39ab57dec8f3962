/** Queries on the Postgres index: every row set comes in no particular order. */
module PgReading {
  import opened Bytes
  import opened IndexOps
  import opened PgTables
  import opened PgTags
  import opened RegistryTypes
  import opened Wrappers
  import SemVer

  /** The same release, with its dependencies in any order. */
  ghost predicate SameRelease(a: CrateVersion, b: CrateVersion) {
    a == b.(deps := a.deps) && multiset(a.deps) == multiset(b.deps)
  }

  ghost predicate Distinct(ids: seq<Id>) {
    forall i, j | 0 <= i < j < |ids| :: ids[i] != ids[j]
  }

  /** Equal rows give equal values. */
  ghost predicate Agree<T(!new)>(ids: seq<Id>, xs: seq<T>, order: seq<Id>, ys: seq<T>) {
    |ids| == |xs| && |order| == |ys| &&
    forall i, j | 0 <= i < |ids| && 0 <= j < |order| && ids[i] == order[j] :: xs[i] == ys[j]
  }

  function Without<T>(xs: seq<T>, j: nat): seq<T>
    requires j < |xs|
  {
    xs[..j] + xs[j + 1..]
  }

  lemma WithoutOne<T>(xs: seq<T>, j: nat)
    requires j < |xs|
    ensures multiset(xs) == multiset(Without(xs, j)) + multiset{xs[j]}
  {
    assert xs == xs[..j] + [xs[j]] + xs[j + 1..];
  }

  lemma DistinctWithout(ids: seq<Id>, j: nat)
    requires Distinct(ids) && j < |ids|
    ensures Distinct(Without(ids, j))
    ensures forall id :: id in Without(ids, j) <==> id in ids && id != ids[j]
  {
    assert ids == ids[..j] + [ids[j]] + ids[j + 1..];
  }

  lemma AgreeWithout<T(!new)>(ids: seq<Id>, xs: seq<T>, i: nat, order: seq<Id>, ys: seq<T>, j: nat)
    requires Agree(ids, xs, order, ys) && i < |ids| && j < |order|
    ensures Agree(Without(ids, i), Without(xs, i), Without(order, j), Without(ys, j))
  {
  }

  lemma NothingIn(ids: seq<Id>)
    ensures ids == [] || exists id :: id in ids
  {
    if ids != [] {
      assert ids[0] in ids;
    }
  }

  /** Two lists of the same rows, without repetition, hold the same values equally often. */
  lemma {:induction false} SameRowsSameValues<T(!new)>(ids: seq<Id>, xs: seq<T>, order: seq<Id>, ys: seq<T>)
    requires Distinct(ids) && Distinct(order) && Agree(ids, xs, order, ys)
    requires forall id :: id in ids <==> id in order
    ensures multiset(xs) == multiset(ys)
    decreases |ids|
  {
    if ids == [] {
      NothingIn(order);
    } else {
      assert ids[0] in order;
      var j :| 0 <= j < |order| && order[j] == ids[0];
      DistinctWithout(ids, 0);
      DistinctWithout(order, j);
      AgreeWithout(ids, xs, 0, order, ys, j);
      SameRowsSameValues(Without(ids, 0), Without(xs, 0), Without(order, j), Without(ys, j));
      WithoutOne(xs, 0);
      WithoutOne(ys, j);
    }
  }

  /** `get-dependencies.sql`, and the loop over its rows. */
  method ReadDependencies(db: Db, version: Id, ghost order: seq<Id>, ghost expected: seq<Dependency>)
    returns (deps: seq<Dependency>)
    requires ForeignKeys(db) && DependencyRowsMatch(db, version, order, expected)
    ensures multiset(deps) == multiset(expected)
  {
    var todo := set d | d in db.dependencies && db.dependencies[d].dependent == version;
    ghost var rows := todo;
    ghost var ids: seq<Id> := [];
    deps := [];
    while todo != {}
      invariant todo <= rows && |ids| == |deps|
      invariant Distinct(ids)
      invariant forall id :: id in ids <==> id in rows && id !in todo
      invariant forall i | 0 <= i < |ids| :: ids[i] in db.dependencies && deps[i] == DependencyAt(db, ids[i])
      decreases |todo|
    {
      var d :| d in todo;
      deps := deps + [DependencyAt(db, d)];
      ids := ids + [d];
      todo := todo - {d};
    }
    SameRowsSameValues(ids, deps, order, expected);
  }

  /** `get-features.sql`, and the loop over its rows. */
  method ReadFeatures(db: Db, version: Id, ghost expected: map<string, seq<string>>)
    returns (features: map<string, seq<string>>)
    requires FeatureRowsMatch(db.features, version, expected)
    ensures features == expected
  {
    features := map[];
    var todo := set f | f in db.features && db.features[f].crateVersion == version;
    ghost var rows := todo;
    while todo != {}
      invariant todo <= rows
      invariant forall k | k in features :: k in expected && features[k] == expected[k]
      invariant forall f | f in rows && f !in todo :: db.features[f].name in features
      decreases |todo|
    {
      var f :| f in todo;
      features := features[db.features[f].name := db.features[f].values];
      todo := todo - {f};
    }
    forall k | k in expected ensures k in features {
      var f :| f in db.features && db.features[f].crateVersion == version && db.features[f].name == k;
      assert f in rows;
    }
  }

  /** One element of the answer; parsing the text columns cannot fail on rows that publications wrote. */
  method ReadRelease(db: Db, name: string, version: Id, ghost order: map<Id, seq<Id>>, ghost e: CrateVersion)
    returns (r: Result<CrateVersion, IndexError>)
    requires ForeignKeys(db) && ReleaseMatches(db, order, version, e) && e.name == name
    ensures r.Ok? && SameRelease(r.value, e)
  {
    var row := db.versions[version];
    SemVer.PrintRoundTrip(e.vers);
    HexRoundTrip(e.cksum);
    var features := ReadFeatures(db, version, e.features);
    var deps := ReadDependencies(db, version, order[version], e.deps);
    var cksum := HexDecode(row.cksum);
    if cksum.None? || |cksum.value| != 32 {
      return Err(ServiceError);
    }
    var vers := SemVer.Parse(row.version);
    if vers.None? {
      return Err(ServiceError);
    }
    return Ok(CrateVersion(name, vers.value, deps, cksum.value, features, row.yanked, row.links, 2, map[]));
  }

  /** The entries are the committed releases of that name, each once. */
  ghost predicate Serves(committed: map<Key, CrateVersion>, name: string, entries: seq<CrateVersion>) {
    (forall i | 0 <= i < |entries| ::
      ReleaseKey(name, entries[i].vers) in committed &&
      SameRelease(entries[i], committed[ReleaseKey(name, entries[i].vers)])) &&
    (forall i, j | 0 <= i < j < |entries| :: entries[i].vers != entries[j].vers) &&
    (forall key | key in committed && key.0 == name ::
      exists i | 0 <= i < |entries| :: ReleaseKey(name, entries[i].vers) == key)
  }

  /** `entries[i]` was read from the version row `ids[i]`. */
  ghost predicate ReadFrom(db: Db, committed: map<Key, CrateVersion>, name: string, e: CrateVersion, v: Id) {
    v in db.versions && OwnRow(db, v) && KeyOf(db, v) == ReleaseKey(name, e.vers) &&
    KeyOf(db, v) in committed && SameRelease(e, committed[KeyOf(db, v)])
  }

  /** The entries were read from those version rows of the crate, each row once. */
  ghost predicate AllReadFrom(db: Db, committed: map<Key, CrateVersion>, crateId: Id, name: string,
                              entries: seq<CrateVersion>, ids: seq<Id>) {
    |ids| == |entries| && Distinct(ids) &&
    forall i | 0 <= i < |ids| ::
      ReadFrom(db, committed, name, entries[i], ids[i]) && db.versions[ids[i]].crateId == crateId
  }

  lemma OneMoreRead(db: Db, committed: map<Key, CrateVersion>, crateId: Id, name: string, entries: seq<CrateVersion>,
                    ids: seq<Id>, e: CrateVersion, v: Id)
    requires AllReadFrom(db, committed, crateId, name, entries, ids) && v !in ids
    requires ReadFrom(db, committed, name, e, v) && db.versions[v].crateId == crateId
    ensures AllReadFrom(db, committed, crateId, name, entries + [e], ids + [v])
  {
  }

  /** The loop over `get-versions.sql`. */
  method ReadReleases(db: Db, crateId: Id, name: string, ghost order: map<Id, seq<Id>>,
                      ghost committed: map<Key, CrateVersion>)
    returns (r: Result<seq<CrateVersion>, IndexError>, ghost ids: seq<Id>)
    requires ForeignKeys(db) && RowsCommitted(db, order, committed)
    requires crateId in db.crates && db.crates[crateId].name == name
    ensures r.Ok? && AllReadFrom(db, committed, crateId, name, r.value, ids)
    ensures forall v | v in db.versions && db.versions[v].crateId == crateId :: v in ids
  {
    var todo := set v | v in db.versions && db.versions[v].crateId == crateId;
    ghost var rows := todo;
    var entries := [];
    ids := [];
    while todo != {}
      invariant todo <= rows
      invariant AllReadFrom(db, committed, crateId, name, entries, ids)
      invariant forall id :: id in ids <==> id in rows && id !in todo
      decreases |todo|
    {
      var v :| v in todo;
      var read := ReadOne(db, v, name, order, committed);
      match read
      case Err(error) =>
        return Err(error), ids;
      case Ok(e) =>
        OneMoreRead(db, committed, crateId, name, entries, ids, e, v);
        entries := entries + [e];
        ids := ids + [v];
        todo := todo - {v};
    }
    return Ok(entries), ids;
  }

  method ReadOne(db: Db, v: Id, name: string, ghost order: map<Id, seq<Id>>, ghost committed: map<Key, CrateVersion>)
    returns (r: Result<CrateVersion, IndexError>)
    requires ForeignKeys(db) && RowsCommitted(db, order, committed)
    requires v in db.versions && db.crates[db.versions[v].crateId].name == name
    ensures r.Ok? && ReadFrom(db, committed, name, r.value, v)
  {
    assert RowCommitted(db, order, committed, v);
    r := ReadRelease(db, name, v, order, committed[KeyOf(db, v)]);
  }

  lemma ReadVersionsDiffer(db: Db, committed: map<Key, CrateVersion>, crateId: Id, name: string,
                           entries: seq<CrateVersion>, ids: seq<Id>, i: nat, j: nat)
    requires VersionsUnique(db.versions) && AllReadFrom(db, committed, crateId, name, entries, ids)
    requires i < j < |entries|
    ensures entries[i].vers != entries[j].vers
  {
    assert ReadFrom(db, committed, name, entries[i], ids[i]) && ReadFrom(db, committed, name, entries[j], ids[j]);
  }

  /** Crate names are unique within the index itself, so a committed release of that name has a row of that crate. */
  lemma CommittedAreRead(db: Db, crateId: Id, name: string, committed: map<Key, CrateVersion>,
                         entries: seq<CrateVersion>, ids: seq<Id>, v: Id)
    requires AllReadFrom(db, committed, crateId, name, entries, ids) && CratesUnique(db.crates)
    requires forall w | w in db.versions && db.versions[w].crateId == crateId :: w in ids
    requires crateId in db.crates && db.crates[crateId].name == name && db.crates[crateId].registry == ""
    requires v in db.versions && OwnRow(db, v) && KeyOf(db, v).0 == name
    ensures exists i | 0 <= i < |entries| :: ReleaseKey(name, entries[i].vers) == KeyOf(db, v)
  {
    assert db.versions[v].crateId == crateId;
    var i :| 0 <= i < |ids| && ids[i] == v;
    assert ReadFrom(db, committed, name, entries[i], ids[i]);
  }

  lemma ReadingServes(db: Db, crateId: Id, name: string, order: map<Id, seq<Id>>, committed: map<Key, CrateVersion>,
                      entries: seq<CrateVersion>, ids: seq<Id>)
    requires CratesUnique(db.crates) && VersionsUnique(db.versions) && Represents(db, order, committed)
    requires crateId in db.crates && db.crates[crateId].name == name && db.crates[crateId].registry == ""
    requires AllReadFrom(db, committed, crateId, name, entries, ids)
    requires forall v | v in db.versions && db.versions[v].crateId == crateId :: v in ids
    ensures Serves(committed, name, entries)
  {
    forall i, j | 0 <= i < j < |entries| ensures entries[i].vers != entries[j].vers {
      ReadVersionsDiffer(db, committed, crateId, name, entries, ids, i, j);
    }
    forall key | key in committed && key.0 == name
      ensures exists i | 0 <= i < |entries| :: ReleaseKey(name, entries[i].vers) == key
    {
      assert HasRow(db, key);
      var v :| v in db.versions && OwnRow(db, v) && KeyOf(db, v) == key;
      CommittedAreRead(db, crateId, name, committed, entries, ids, v);
    }
  }

  /** The index itself knows the crate, if only as somebody's dependency. */
  ghost predicate Known(db: Db, name: string) {
    exists i :: i in db.crates && db.crates[i].name == name && db.crates[i].registry == ""
  }

  method ReadEntry(db: Db, name: string, ghost order: map<Id, seq<Id>>, ghost committed: map<Key, CrateVersion>)
    returns (r: Result<seq<CrateVersion>, IndexError>)
    requires Good(db, order, committed)
    ensures r.Err? <==> !Known(db, name)
    ensures r.Err? ==> r.error == NotFound
    ensures r.Ok? ==> Serves(committed, name, r.value)
  {
    var found := set i | i in db.crates && db.crates[i].name == name && db.crates[i].registry == "";
    if found == {} {
      forall i ensures !(i in db.crates && db.crates[i].name == name && db.crates[i].registry == "") {
        assert i !in found;
      }
      return Err(NotFound);
    }
    var crateId :| crateId in found;
    ghost var ids;
    r, ids := ReadReleases(db, crateId, name, order, committed);
    ReadingServes(db, crateId, name, order, committed, r.value, ids);
  }
}
