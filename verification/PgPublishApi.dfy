/** The two stores of a publish when the index is Postgres: a commit that fails after the end step rolls the tarball
    back. */
module PgPublishApi {
  import opened Bytes
  import opened EndStep
  import opened IndexOps
  import opened PgIndexProvider
  import opened PgOps
  import opened PgTables
  import opened RegistryTypes
  import opened Storage
  import opened StoragePaths
  import opened Wrappers
  import SemVer

  /** The releases that are committed, and the tarballs. */
  datatype PgStores = PgStores(committed: map<Key, CrateVersion>, bucket: Bucket)

  ghost predicate PgStoredAs(s: PgStores, s': PgStores, p: Publish, tarball: seq<Byte>, cksum: Checksum,
                             tx: Transaction, w: TarballWeather, r: Result<(), IndexError>) {
    var op := PublishCrate(p, cksum, tarball);
    var refusal := Refusal(PgAccepts(s.committed, op), tx);
    r == PublishResult(refusal, w.ok, tx) &&
    s'.committed == (if r.Ok? then PgDoes(s.committed, op) else s.committed) &&
    s'.bucket == BucketAfter(s.bucket, p, tarball, cksum, w, refusal.None?, r.Ok?)
  }

  /** It succeeds exactly for a new version when nothing fails; then the release is committed and its tarball stored. */
  lemma PgSuccessExactly(s: PgStores, s': PgStores, p: Publish, tarball: seq<Byte>, cksum: Checksum, tx: Transaction,
                         w: TarballWeather, r: Result<(), IndexError>)
    requires PgStoredAs(s, s', p, tarball, cksum, tx, w, r)
    ensures r.Ok? <==> ReleaseKey(p.name, p.vers) !in s.committed &&
                       tx.crateOk && tx.insertOk && tx.rowsOk && w.ok && tx.commitOk
    ensures r.Ok? ==> s'.committed == s.committed[ReleaseKey(p.name, p.vers) := StoredRelease(p, cksum)] &&
                      s'.bucket == s.bucket[NewPath(p.name, SemVer.Print(p.vers), cksum) := tarball]
  {
  }

  /** The answer, case by case and in the order of the statements. */
  lemma PgAnswerExactly(s: PgStores, s': PgStores, p: Publish, tarball: seq<Byte>, cksum: Checksum, tx: Transaction,
                        w: TarballWeather, r: Result<(), IndexError>)
    requires PgStoredAs(s, s', p, tarball, cksum, tx, w, r)
    ensures r == if !tx.crateOk then Err(IndexError.ServiceError)
                 else if (p.name, SemVer.Print(p.vers)) in s.committed || !tx.insertOk then Err(Conflict)
                 else if tx.rowsOk && w.ok && tx.commitOk then Ok(()) else Err(IndexError.ServiceError)
    ensures !tx.rowsOk ==> s' == s
  {
  }

  /** A failure commits nothing, a failed commit included, and undoes what it did to the bucket. */
  lemma PgFailureUndone(s: PgStores, s': PgStores, p: Publish, tarball: seq<Byte>, cksum: Checksum, tx: Transaction,
                        w: TarballWeather, r: Result<(), IndexError>)
    requires PgStoredAs(s, s', p, tarball, cksum, tx, w, r) && r.Err? && Possible(w)
    ensures var newPath, oldPath := NewPath(p.name, SemVer.Print(p.vers), cksum), OldPath(p.name, SemVer.Print(p.vers));
            s'.committed == s.committed &&
            (forall key | key != newPath && key != oldPath ::
              (key in s'.bucket <==> key in s.bucket) && (key in s.bucket ==> s'.bucket[key] == s.bucket[key])) &&
            (newPath !in s.bucket && oldPath !in s.bucket && (!w.written || (w.ok && w.newGone)) ==>
              s'.bucket == s.bucket)
  {
    FailureIsUndone(s.bucket, p, tarball, cksum, w, true);
  }

  /** What the index and the rollback leave, put together. */
  lemma StoresFollow(s: PgStores, s': PgStores, uploaded: Bucket, p: Publish, tarball: seq<Byte>, cksum: Checksum,
                     tx: Transaction, w: TarballWeather, stored: bool, r: Result<(), IndexError>)
    requires Possible(w)
    requires PublishedAs(PublishCrate(p, cksum, tarball), tx, w.ok, s.committed, s'.committed, stored, r)
    requires var newPath := NewPath(p.name, SemVer.Print(p.vers), cksum);
             var oldPath := OldPath(p.name, SemVer.Print(p.vers));
             var refusal := Refusal(PgAccepts(s.committed, PublishCrate(p, cksum, tarball)), tx);
             uploaded == (if refusal.None? && w.written then s.bucket[newPath := tarball] else s.bucket) &&
             s'.bucket == if r.Err? && stored then AfterDelete(uploaded, newPath, oldPath, w.newGone, w.oldGone)
                          else uploaded
    ensures PgStoredAs(s, s', p, tarball, cksum, tx, w, r)
  {
  }

  class PgPublishApi {
    const index: PgIndexProvider
    const storage: S3StorageProvider

    constructor (index: PgIndexProvider, storage: S3StorageProvider)
      ensures this.index == index && this.storage == storage
    {
      this.index, this.storage := index, storage;
    }

    ghost function Stored(): (s: PgStores)
      reads index, storage
    {
      PgStores(index.committed, storage.bucket)
    }

    /** The part of the handler behind the frame and the right to publish. */
    method Store(p: Publish, crateBytes: seq<Byte>, cksum: Checksum, tx: Transaction, w: TarballWeather)
      returns (r: Result<(), IndexError>)
      requires index.Valid() && SemVer.WellFormed(p.vers) && Possible(w)
      modifies index, storage
      ensures index.Valid() && PgStoredAs(old(Stored()), Stored(), p, crateBytes, cksum, tx, w, r)
    {
      ghost var before := Stored();
      var version := SemVer.Print(p.vers);
      var endStep := new EndStep(storage, p.name, version, crateBytes, cksum, w.written, w.ok);
      r := index.PublishRelease(p, cksum, endStep, tx);
      ghost var uploaded := storage.bucket;
      if r.Ok? {
        assert endStep.storedCrate;
      } else if endStep.storedCrate {
        var deleted := storage.DeleteCrate(p.name, version, cksum, w.newGone, w.newDeleted, w.oldGone, w.oldDeleted);
      }
      StoresFollow(before, Stored(), uploaded, p, crateBytes, cksum, tx, w, endStep.storedCrate, r);
    }
  }
}
