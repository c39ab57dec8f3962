/** The rows of one version in the Postgres index: the yank flag, and what a download asks for. */
module PgYank {
  import opened Bytes
  import opened IndexOps
  import opened PgOps
  import opened PgTables
  import opened PgTags
  import opened RegistryTypes
  import opened Wrappers

  /** The join of `set-yank.sql` and of `confirm-existence.sql`. */
  function RowsFor(db: Db, name: string, version: string): set<Id> {
    set v | v in db.versions && db.versions[v].crateId in db.crates &&
            db.crates[db.versions[v].crateId].name == name && db.crates[db.versions[v].crateId].registry == "" &&
            db.versions[v].version == version
  }

  /** What the tables say of keys alone. */
  ghost predicate KeysMatch(db: Db, committed: map<Key, CrateVersion>) {
    CratesUnique(db.crates) && VersionsUnique(db.versions) && CommittedHaveRows(db, committed) &&
    forall v | v in db.versions :: OwnRow(db, v) && KeyOf(db, v) in committed
  }

  lemma KeysDoMatch(db: Db, order: map<Id, seq<Id>>, committed: map<Key, CrateVersion>)
    requires CratesUnique(db.crates) && VersionsUnique(db.versions) && Represents(db, order, committed)
    ensures KeysMatch(db, committed)
  {
    forall v | v in db.versions ensures OwnRow(db, v) && KeyOf(db, v) in committed {
      assert RowCommitted(db, order, committed, v);
    }
  }

  /** A version has one row if it was committed, and none if it was not. */
  lemma RowsForExactly(db: Db, committed: map<Key, CrateVersion>, name: string, version: string)
    requires KeysMatch(db, committed)
    ensures (name, version) !in committed ==> RowsFor(db, name, version) == {}
    ensures (name, version) in committed ==> exists v :: RowsFor(db, name, version) == {v}
  {
    var rows := RowsFor(db, name, version);
    forall v | v in rows ensures KeyOf(db, v) in committed && KeyOf(db, v) == (name, version) {
    }
    if (name, version) in committed {
      assert HasRow(db, (name, version));
      var v :| v in db.versions && OwnRow(db, v) && KeyOf(db, v) == (name, version);
      assert OwnRow(db, v) && v in rows;
      forall w | w in rows ensures w == v {
        OneRowAKey(db, v, w);
      }
      assert rows == {v};
    }
  }

  function YankRows(versions: map<Id, VersionRow>, rows: set<Id>, val: bool): map<Id, VersionRow> {
    map v | v in versions :: if v in rows then versions[v].(yanked := val) else versions[v]
  }

  lemma YankKeepsConstraints(db: Db, v: Id, val: bool)
    requires Constraints(db) && v in db.versions
    ensures Constraints(db.(versions := YankRows(db.versions, {v}, val)))
  {
    var versions := YankRows(db.versions, {v}, val);
    assert versions.Keys == db.versions.Keys;
  }

  lemma YankedRowMatches(db: Db, order: map<Id, seq<Id>>, v: Id, w: Id, val: bool, e: CrateVersion)
    requires ReleaseMatches(db, order, w, e)
    ensures ReleaseMatches(db.(versions := YankRows(db.versions, {v}, val)), order, w,
                           if w == v then e.(yanked := val) else e)
  {
    var db' := db.(versions := YankRows(db.versions, {v}, val));
    DependencyRowsKept(db, db', w, order[w], e.deps);
  }

  lemma YankedRowCommitted(db: Db, order: map<Id, seq<Id>>, committed: map<Key, CrateVersion>, v: Id, w: Id, val: bool)
    requires CratesUnique(db.crates) && VersionsUnique(db.versions) && v in db.versions && OwnRow(db, v)
    requires KeyOf(db, v) in committed && w in db.versions && RowCommitted(db, order, committed, w)
    ensures RowCommitted(db.(versions := YankRows(db.versions, {v}, val)), order,
                         Yanked(committed, KeyOf(db, v), val), w)
  {
    YankedRowMatches(db, order, v, w, val, committed[KeyOf(db, w)]);
    OneRowAKey(db, v, w);
  }

  lemma YankRepresents(db: Db, order: map<Id, seq<Id>>, committed: map<Key, CrateVersion>, v: Id, val: bool)
    requires KeysMatch(db, committed) && Represents(db, order, committed) && v in db.versions
    ensures Represents(db.(versions := YankRows(db.versions, {v}, val)), order, Yanked(committed, KeyOf(db, v), val))
  {
    var db' := db.(versions := YankRows(db.versions, {v}, val));
    var committed' := Yanked(committed, KeyOf(db, v), val);
    forall w | w in db'.versions ensures RowCommitted(db', order, committed', w) {
      assert RowCommitted(db, order, committed, w);
      YankedRowCommitted(db, order, committed, v, w, val);
    }
    YankKeepsRows(db, committed, v, val);
  }

  lemma YankKeepsRows(db: Db, committed: map<Key, CrateVersion>, v: Id, val: bool)
    requires KeysMatch(db, committed) && v in db.versions
    ensures CommittedHaveRows(db.(versions := YankRows(db.versions, {v}, val)), Yanked(committed, KeyOf(db, v), val))
  {
    var db' := db.(versions := YankRows(db.versions, {v}, val));
    forall key | key in committed ensures HasRow(db', key) {
      assert HasRow(db, key);
      var w :| w in db.versions && OwnRow(db, w) && KeyOf(db, w) == key;
      assert OwnRow(db', w) && KeyOf(db', w) == key;
    }
  }

  lemma OneRowAKey(db: Db, v: Id, w: Id)
    requires CratesUnique(db.crates) && VersionsUnique(db.versions) && v in db.versions && w in db.versions
    requires db.versions[v].crateId in db.crates && db.versions[w].crateId in db.crates
    requires db.crates[db.versions[v].crateId].registry == db.crates[db.versions[w].crateId].registry
    ensures KeyOf(db, v) == KeyOf(db, w) ==> v == w
  {
  }

  lemma CommittedHasOneRow(db: Db, order: map<Id, seq<Id>>, committed: map<Key, CrateVersion>, key: Key)
    requires Good(db, order, committed)
    ensures |RowsFor(db, key.0, key.1)| == if key in committed then 1 else 0
  {
    KeysDoMatch(db, order, committed);
    RowsForExactly(db, committed, key.0, key.1);
  }

  lemma YankKeepsGood(db: Db, order: map<Id, seq<Id>>, committed: map<Key, CrateVersion>, key: Key, val: bool)
    requires Good(db, order, committed) && key in committed
    ensures Good(db.(versions := YankRows(db.versions, RowsFor(db, key.0, key.1), val)), order,
                 Yanked(committed, key, val))
  {
    KeysDoMatch(db, order, committed);
    RowsForExactly(db, committed, key.0, key.1);
    var v :| RowsFor(db, key.0, key.1) == {v};
    assert v in RowsFor(db, key.0, key.1);
    YankKeepsConstraints(db, v, val);
    YankRepresents(db, order, committed, v, val);
  }

  lemma RowIsCommitted(db: Db, order: map<Id, seq<Id>>, committed: map<Key, CrateVersion>, key: Key, v: Id)
    requires Good(db, order, committed) && v in RowsFor(db, key.0, key.1)
    ensures key in committed && VersionRowMatches(db.versions[v], committed[key])
    ensures HexDecode(db.versions[v].cksum) == Some(committed[key].cksum)
  {
    HexRoundTrip(committed[key].cksum);
    assert RowCommitted(db, order, committed, v);
  }

  /** `yank_inner`: one statement, answered with the rows it changed. */
  method YankInner(db: Db, name: string, version: string, val: bool, ghost order: map<Id, seq<Id>>,
                   ghost committed: map<Key, CrateVersion>)
    returns (r: Result<(), IndexError>, db': Db)
    requires Good(db, order, committed)
    ensures r == if (name, version) in committed then Ok(()) else Err(Conflict)
    ensures Good(db', order, if r.Ok? then Yanked(committed, (name, version), val) else committed)
    ensures db' == if r.Ok? then db.(versions := db'.versions) else db
  {
    var rows := RowsFor(db, name, version);
    db' := db.(versions := YankRows(db.versions, rows, val));
    CommittedHasOneRow(db, order, committed, (name, version));
    if (name, version) in committed {
      YankKeepsGood(db, order, committed, (name, version), val);
    } else {
      assert db'.versions == db.versions;
    }
    return if |rows| == 1 then Ok(()) else Err(Conflict), db';
  }

  /** `confirm_existence`. */
  method ConfirmExistence(db: Db, name: string, version: string, ghost order: map<Id, seq<Id>>,
                          ghost committed: map<Key, CrateVersion>)
    returns (r: Result<(bool, Checksum), IndexError>)
    requires Good(db, order, committed)
    ensures r == if (name, version) in committed then
                   Ok((committed[(name, version)].yanked, committed[(name, version)].cksum))
                 else Err(NotFound)
  {
    var rows := RowsFor(db, name, version);
    CommittedHasOneRow(db, order, committed, (name, version));
    if rows == {} {
      return Err(NotFound);
    }
    var v :| v in rows;
    RowIsCommitted(db, order, committed, (name, version), v);
    var cksum := HexDecode(db.versions[v].cksum);
    if cksum.None? || |cksum.value| != 32 {
      return Err(ServiceError);
    }
    return Ok((db.versions[v].yanked, cksum.value));
  }
}
