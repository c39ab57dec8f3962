/** The step a publish runs inside the index, after the index has found no conflict and before it lists the
    release. */
module EndStep {
  import opened Bytes
  import opened IndexOps
  import opened RegistryTypes
  import opened Storage
  import opened StoragePaths
  import opened Wrappers
  import SemVer

  /** What will come of the upload of a tarball and of its rollback: whether the object arrives and goes, and whether
      the service says so. */
  datatype TarballWeather = TarballWeather(
    written: bool, ok: bool, newGone: bool, newDeleted: bool, oldGone: bool, oldDeleted: bool)

  predicate Possible(w: TarballWeather) {
    (w.ok ==> w.written) && (w.newDeleted ==> w.newGone) && (w.oldDeleted ==> w.oldGone)
  }

  /** The bucket after a publish that reached its end step and failed: the upload, undone if it was reported. */
  function RolledBack(bucket: Bucket, p: Publish, tarball: seq<Byte>, cksum: Checksum, w: TarballWeather): Bucket {
    var newPath, oldPath := NewPath(p.name, SemVer.Print(p.vers), cksum), OldPath(p.name, SemVer.Print(p.vers));
    var uploaded := if w.written then bucket[newPath := tarball] else bucket;
    if w.ok then AfterDelete(uploaded, newPath, oldPath, w.newGone, w.oldGone) else uploaded
  }

  /** The bucket after a publish, whichever index it went to: `reached` says whether its end step ran, `success` whether
      the publish succeeded. */
  function BucketAfter(bucket: Bucket, p: Publish, tarball: seq<Byte>, cksum: Checksum, w: TarballWeather,
                       reached: bool, success: bool): Bucket
  {
    if success then bucket[NewPath(p.name, SemVer.Print(p.vers), cksum) := tarball]
    else if reached then RolledBack(bucket, p, tarball, cksum, w)
    else bucket
  }

  /** A publish that fails leaves everything but its own objects; those too, if neither was there and the tarball was
      not written or its rollback worked. */
  ghost predicate Undone(bucket: Bucket, bucket': Bucket, p: Publish, cksum: Checksum, w: TarballWeather) {
    var newPath, oldPath := NewPath(p.name, SemVer.Print(p.vers), cksum), OldPath(p.name, SemVer.Print(p.vers));
    (forall key | key != newPath && key != oldPath ::
      (key in bucket' <==> key in bucket) && (key in bucket ==> bucket'[key] == bucket[key])) &&
    (newPath !in bucket && oldPath !in bucket && (!w.written || (w.ok && w.newGone)) ==> bucket' == bucket)
  }

  lemma FailureIsUndone(bucket: Bucket, p: Publish, tarball: seq<Byte>, cksum: Checksum, w: TarballWeather,
                        reached: bool)
    requires Possible(w)
    ensures Undone(bucket, BucketAfter(bucket, p, tarball, cksum, w, reached, false), p, cksum, w)
  {
  }

  /** The two objects of a failed publish, one by one. */
  lemma RolledBackObjects(bucket: Bucket, p: Publish, tarball: seq<Byte>, cksum: Checksum, w: TarballWeather)
    requires Possible(w)
    ensures var newPath, oldPath := NewPath(p.name, SemVer.Print(p.vers), cksum), OldPath(p.name, SemVer.Print(p.vers));
            var after := RolledBack(bucket, p, tarball, cksum, w);
            (newPath in after <==> if w.ok then !w.newGone else w.written || newPath in bucket) &&
            (newPath in after ==> after[newPath] == if w.written then tarball else bucket[newPath]) &&
            (oldPath in after <==> oldPath in bucket && !(w.ok && w.oldGone)) &&
            (oldPath in after ==> after[oldPath] == bucket[oldPath])
  {
    OldPathIsNeverNew(p.name, SemVer.Print(p.vers), p.name, SemVer.Print(p.vers), cksum);
  }

  /** The upload of one tarball. `written` and `ok` are what the storage service will do when it is run. */
  class EndStep {
    const storage: S3StorageProvider
    const name: string
    const version: string
    const crateBytes: seq<Byte>
    const cksum: Checksum
    const written: bool
    const ok: bool
    var storedCrate: bool

    constructor (storage: S3StorageProvider, name: string, version: string, crateBytes: seq<Byte>, cksum: Checksum,
                 written: bool, ok: bool)
      ensures this.storage == storage && this.name == name && this.version == version && !storedCrate
      ensures this.crateBytes == crateBytes && this.cksum == cksum && this.written == written && this.ok == ok
    {
      this.storage, this.name, this.version := storage, name, version;
      this.crateBytes, this.cksum := crateBytes, cksum;
      this.written, this.ok, this.storedCrate := written, ok, false;
    }

    /** The bucket once the step has run. */
    function Uploaded(bucket: Bucket): Bucket {
      if written then bucket[NewPath(name, version, cksum) := crateBytes] else bucket
    }

    method Run() returns (r: Result<(), IndexError>)
      requires ok ==> written
      modifies this`storedCrate, storage
      ensures r == if ok then Ok(()) else Err(IndexError.ServiceError)
      ensures storedCrate == (old(storedCrate) || ok)
      ensures storage.bucket == Uploaded(old(storage.bucket))
      ensures storage.bucket == if written then old(storage.bucket)[NewPath(name, version, cksum) := crateBytes]
                                else old(storage.bucket)
    {
      var res := storage.PutCrate(name, version, crateBytes, cksum, written, ok);
      if res.Err? {
        return Err(IndexError.ServiceError);
      }
      storedCrate := true;
      return Ok(());
    }
  }
}
