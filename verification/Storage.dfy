/** The tarball bucket: an abstract store of objects by key, any of whose operations may fail. */
module Storage {
  import opened Bytes
  import opened RegistryTypes
  import opened StoragePaths
  import opened Wrappers

  type Bucket = map<string, seq<Byte>>

  datatype StorageError = NotFound | ServiceError

  /** The bucket after the two deletes of `delete_crate`, each of which may or may not have taken effect. */
  function AfterDelete(bucket: Bucket, newPath: string, oldPath: string, newGone: bool, oldGone: bool): Bucket {
    bucket - (if newGone then {newPath} else {}) - (if oldGone then {oldPath} else {})
  }

  /** What one request for an object gives; `ok` says whether the service answered. */
  function PulledObject(bucket: Bucket, path: string, ok: bool): Result<seq<Byte>, StorageError> {
    if !ok then Err(ServiceError) else if path in bucket then Ok(bucket[path]) else Err(NotFound)
  }

  class S3StorageProvider {
    var bucket: Bucket

    constructor ()
      ensures bucket == map[]
    {
      bucket := map[];
    }

    /** `written` says whether the object arrived, `ok` whether the service said so. */
    method PutCrate(name: string, version: string, crateBytes: seq<Byte>, cksum: Checksum, written: bool, ok: bool)
      returns (r: Result<(), StorageError>)
      requires ok ==> written
      modifies this
      ensures r.Ok? <==> ok
      ensures bucket == if written then old(bucket)[NewPath(name, version, cksum) := crateBytes] else old(bucket)
    {
      if written {
        bucket := bucket[NewPath(name, version, cksum) := crateBytes];
      }
      return if ok then Ok(()) else Err(ServiceError);
    }

    /** The new-style object if it can be had, else the old-style one, else the first error. */
    method PullCrate(name: string, version: string, cksum: Checksum, newOk: bool, oldOk: bool)
      returns (r: Result<seq<Byte>, StorageError>)
      ensures r.Ok? <==>
              (newOk && NewPath(name, version, cksum) in bucket) || (oldOk && OldPath(name, version) in bucket)
      ensures newOk && NewPath(name, version, cksum) in bucket ==> r == Ok(bucket[NewPath(name, version, cksum)])
      ensures r.Ok? && !(newOk && NewPath(name, version, cksum) in bucket) ==> r == Ok(bucket[OldPath(name, version)])
      ensures r.Err? ==> r.error == if newOk then NotFound else ServiceError
    {
      var first := PulledObject(bucket, NewPath(name, version, cksum), newOk);
      if first.Ok? {
        return first;
      }
      var second := PulledObject(bucket, OldPath(name, version), oldOk);
      return if second.Ok? then second else first;
    }

    /** Both objects are asked to be deleted; one success is enough. */
    method DeleteCrate(name: string, version: string, cksum: Checksum, newGone: bool, newOk: bool, oldGone: bool,
                       oldOk: bool)
      returns (r: Result<(), StorageError>)
      requires (newOk ==> newGone) && (oldOk ==> oldGone)
      modifies this
      ensures r.Ok? <==> newOk || oldOk
      ensures forall key :: key in bucket <==>
                (key in old(bucket) && !(newGone && key == NewPath(name, version, cksum)) &&
                 !(oldGone && key == OldPath(name, version)))
      ensures forall key | key in bucket :: bucket[key] == old(bucket)[key]
      ensures bucket ==
              AfterDelete(old(bucket), NewPath(name, version, cksum), OldPath(name, version), newGone, oldGone)
      ensures forall name', version', cksum' | NewPath(name', version', cksum') in old(bucket) &&
                NewPath(name', version', cksum') != NewPath(name, version, cksum) ::
                NewPath(name', version', cksum') in bucket
    {
      ghost var before := bucket;
      forall name', version', cksum' ensures NewPath(name', version', cksum') != OldPath(name, version) {
        OldPathIsNeverNew(name, version, name', version', cksum');
      }
      if newGone {
        bucket := bucket - {NewPath(name, version, cksum)};
      }
      if oldGone {
        bucket := bucket - {OldPath(name, version)};
      }
      assert bucket == AfterDelete(before, NewPath(name, version, cksum), OldPath(name, version), newGone, oldGone);
      var res1: Result<(), StorageError> := if newOk then Ok(()) else Err(ServiceError);
      var res2: Result<(), StorageError> := if oldOk then Ok(()) else Err(ServiceError);
      return if res1.Ok? then res1 else res2;
    }
  }
}
