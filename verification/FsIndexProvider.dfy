/** The file-system index on bytes: one request from its name check to the clean-up of its lock. The interleaving
    of requests is in `RegistryProtocol`; here the code of each runs through, and is shown to do what `Judge`
    says. */
module FsIndexProvider {
  import opened AccessLocks
  import opened Bytes
  import opened CratePaths
  import opened EndStep
  import opened IndexOps
  import opened JsonLines
  import opened RegistryTypes
  import opened SemVer
  import opened StoragePaths
  import opened Strings
  import opened Wrappers

  class FsIndexProvider {
    const codec: Codec
    const metaFileLocks: AccessLocks<string>
    var files: map<string, seq<Byte>>
    /** The records the files hold. */
    ghost var contents: map<string, IndexFile>

    /** Between requests no lock is held or kept, and each file is the text of its records. */
    ghost predicate Valid()
      reads this, metaFileLocks
    {
      metaFileLocks.Valid() && metaFileLocks.locks == map[] && metaFileLocks.Alive() == {} && FilesValid()
    }

    ghost predicate FilesValid()
      reads this
    {
      Faithful(codec) && files.Keys == contents.Keys &&
      forall path | path in files :: files[path] == Serialized(codec, contents[path].entries, contents[path].latest)
    }

    constructor (codec: Codec)
      requires Faithful(codec)
      ensures Valid() && contents == map[] && this.codec == codec && fresh(metaFileLocks)
    {
      this.codec := codec;
      metaFileLocks := new AccessLocks<string>();
      files, contents := map[], map[];
    }

    /** `access_crate`: the key, the path and the lock of a crate. */
    method AccessCrate(crateName: string) returns (r: Result<(string, string, LockId), IndexError>)
      requires Valid()
      modifies metaFileLocks
      ensures FilesValid() && metaFileLocks.Valid()
      ensures r.Err? <==> MetaPath(ToLower(crateName)).None?
      ensures r.Ok? <==> 1 <= |crateName| <= 64 && IsCrateName(crateName)
      ensures r.Err? ==> r.error == CrateNameNotAllowed && Valid()
      ensures r.Ok? ==> r.value.0 == ToLower(crateName) && MetaPath(r.value.0) == Some(r.value.1)
      ensures r.Ok? ==> metaFileLocks.Alive() == {r.value.2} && metaFileLocks.locks == map[r.value.0 := r.value.2] &&
                        r.value.2 in metaFileLocks.strong && metaFileLocks.strong[r.value.2] == 1 &&
                        r.value.2 in metaFileLocks.objects && metaFileLocks.objects[r.value.2] == r.value.1
    {
      AcceptedExactly(crateName);
      var lowercaseName := ToLower(crateName);
      var path := CrateMetaFileRelPath(lowercaseName);
      if path.None? {
        return Err(CrateNameNotAllowed);
      }
      var lock := metaFileLocks.RwLockForKey(lowercaseName, path.value);
      return Ok((lowercaseName, path.value, lock));
    }

    /** Dropping the `CrateMetaPath`. */
    method DropMetaPath(key: string, lock: LockId)
      requires FilesValid() && metaFileLocks.Valid() && metaFileLocks.Alive() == {lock}
      requires metaFileLocks.locks == map[key := lock] && metaFileLocks.strong[lock] == 1
      modifies metaFileLocks
      ensures Valid()
    {
      metaFileLocks.DropArc(lock);
      metaFileLocks.OnUnlocked(key);
    }

    /** `deserialized`; `ok` says whether the store answered. */
    method Deserialize(path: string, ok: bool) returns (r: Result<IndexFile, IndexError>)
      requires FilesValid()
      ensures r == if !ok then Err(ServiceError)
                   else if path in contents then Ok(contents[path]) else Err(NotFound)
    {
      if !ok {
        return Err(ServiceError);
      }
      if path !in files {
        return Err(NotFound);
      }
      RoundTrip(codec, contents[path].entries, contents[path].latest);
      var data := DeserializeData(codec, files[path]);
      return Ok(IndexFile(data.value.0, data.value.1));
    }

    /** `replace` and `put_index_file`. */
    method Replace(path: string, file: IndexFile, ok: bool) returns (r: Result<(), IndexError>)
      requires FilesValid()
      modifies this`files, this`contents
      ensures FilesValid()
      ensures contents == if ok then old(contents)[path := file] else old(contents)
      ensures r == if ok then Ok(()) else Err(ServiceError)
    {
      if !ok {
        return Err(ServiceError);
      }
      var bytes := SerializeData(codec, file.entries, file.latest);
      files := files[path := bytes];
      contents := contents[path := file];
      return Ok(());
    }

    method YankInner(crateName: string, version: Version, yank: bool, pullOk: bool, putOk: bool)
      returns (r: Result<(), IndexError>)
      requires Valid()
      modifies this`files, this`contents, metaFileLocks
      ensures Valid()
      ensures Updated(old(contents), contents, SetYank(crateName, version, yank), pullOk, true, putOk, r)
      ensures var path := MetaPath(ToLower(crateName));
              r == if path.None? then Err(CrateNameNotAllowed)
                   else if !pullOk then Err(ServiceError)
                   else if !HasVersion(EntriesOf(View(old(contents), path.value)), version) then Err(NotFound)
                   else if putOk then Ok(()) else Err(ServiceError)
      ensures r.Err? ==> contents == old(contents)
    {
      UpdateAnswers(contents, SetYank(crateName, version, yank));
      var lock := AccessCrate(crateName);
      if lock.Err? {
        return Err(lock.error);
      }
      var (key, path, id) := lock.value;
      r := YankLocked(path, crateName, version, yank, pullOk, putOk);
      DropMetaPath(key, id);
    }

    /** The part of `yank_inner` that runs under the lock. */
    method YankLocked(path: string, crateName: string, version: Version, yank: bool, pullOk: bool, putOk: bool)
      returns (r: Result<(), IndexError>)
      requires FilesValid()
      modifies this`files, this`contents
      ensures FilesValid()
      ensures UpdatedAt(path, old(contents), contents, SetYank(crateName, version, yank), pullOk, true, putOk, r)
    {
      var meta := Deserialize(path, pullOk);
      if meta.Err? {
        return Err(meta.error);
      }
      var releases := meta.value.entries;
      var release := FindLast(releases, version);
      if release.None? {
        return Err(NotFound);
      }
      releases := releases[release.value := releases[release.value].(yanked := yank)];
      r := Replace(path, IndexFile(releases, meta.value.latest), putOk);
    }

    /** The end step runs exactly when the release would be listed, whatever becomes of it afterwards. */
    method PublishRelease(publish: Publish, tarballChecksum: Checksum, endStep: EndStep, pullOk: bool, putOk: bool)
      returns (r: Result<(), IndexError>)
      requires Valid() && !endStep.storedCrate && (endStep.ok ==> endStep.written)
      modifies this`files, this`contents, metaFileLocks, endStep`storedCrate, endStep.storage
      ensures Valid()
      ensures var op := PublishCrate(publish, tarballChecksum, endStep.crateBytes);
              Updated(old(contents), contents, op, pullOk, endStep.ok, putOk, r) &&
              endStep.storedCrate == (Reaches(old(contents), op, pullOk) && endStep.ok) &&
              endStep.storage.bucket ==
                if Reaches(old(contents), op, pullOk) then endStep.Uploaded(old(endStep.storage.bucket))
                else old(endStep.storage.bucket)
      ensures var path := MetaPath(ToLower(publish.name));
              r == if path.None? then Err(CrateNameNotAllowed)
                   else if !pullOk then Err(ServiceError)
                   else if HasVersion(EntriesOf(View(old(contents), path.value)), publish.vers) then Err(Conflict)
                   else if endStep.ok && putOk then Ok(()) else Err(ServiceError)
      ensures r.Err? ==> contents == old(contents)
      ensures r.Ok? ==> var path := MetaPath(ToLower(publish.name)).value;
                        var entries := EntriesOf(View(old(contents), path)) + [ReleaseOf(publish, tarballChecksum)];
                        contents == old(contents)[path := IndexFile(entries, Some(publish))]
    {
      UpdateAnswers(contents, PublishCrate(publish, tarballChecksum, endStep.crateBytes));
      var lock := AccessCrate(publish.name);
      if lock.Err? {
        return Err(lock.error);
      }
      var (key, path, id) := lock.value;
      r := PublishLocked(path, publish, tarballChecksum, endStep, pullOk, putOk);
      DropMetaPath(key, id);
    }

    /** The part of `publish` that runs under the lock. */
    method PublishLocked(path: string, publish: Publish, tarballChecksum: Checksum, endStep: EndStep, pullOk: bool,
                         putOk: bool)
      returns (r: Result<(), IndexError>)
      requires FilesValid() && !endStep.storedCrate && (endStep.ok ==> endStep.written)
      modifies this`files, this`contents, endStep`storedCrate, endStep.storage
      ensures FilesValid()
      ensures var op := PublishCrate(publish, tarballChecksum, endStep.crateBytes);
              UpdatedAt(path, old(contents), contents, op, pullOk, endStep.ok, putOk, r) &&
              endStep.storedCrate == (ReachesAt(path, old(contents), op, pullOk) && endStep.ok) &&
              endStep.storage.bucket ==
                if ReachesAt(path, old(contents), op, pullOk) then endStep.Uploaded(old(endStep.storage.bucket))
                else old(endStep.storage.bucket)
    {
      var release := ReleaseOf(publish, tarballChecksum);
      var meta := Deserialize(path, pullOk);
      var versions: seq<CrateVersion> := [];
      if meta.Ok? {
        var taken := AnyVersion(meta.value.entries, release.vers);
        if taken {
          return Err(Conflict);
        }
        versions := meta.value.entries;
      } else if meta.error != NotFound {
        return Err(meta.error);
      }
      versions := versions + [release];
      var stepped := endStep.Run();
      if stepped.Err? {
        return Err(stepped.error);
      }
      r := Replace(path, IndexFile(versions, Some(publish)), putOk);
    }

    /** What `confirm_existence` finds: the flag and the checksum of the last release with that version. */
    method ConfirmExistence(crateName: string, version: Version, pullOk: bool)
      returns (r: Result<(bool, Checksum), IndexError>)
      requires Valid()
      modifies metaFileLocks
      ensures Valid()
      ensures var path := MetaPath(ToLower(crateName));
              (r.Ok? <==> path.Some? && pullOk && HasVersion(EntriesOf(View(contents, path.value)), version)) &&
              (r.Err? ==> r.error == if path.None? then CrateNameNotAllowed
                                     else if !pullOk then ServiceError else NotFound)
      ensures r.Ok? ==> var entries := EntriesOf(View(contents, MetaPath(ToLower(crateName)).value));
                        exists i | 0 <= i < |entries| :: entries[i].vers == version &&
                          r.value == (entries[i].yanked, entries[i].cksum) &&
                          forall j | i < j < |entries| :: entries[j].vers != version
    {
      var lock := AccessCrate(crateName);
      if lock.Err? {
        return Err(lock.error);
      }
      var (key, path, id) := lock.value;
      var meta := Deserialize(path, pullOk);
      DropMetaPath(key, id);
      if meta.Err? {
        return Err(meta.error);
      }
      var e := FindLast(meta.value.entries, version);
      if e.None? {
        return Err(NotFound);
      }
      RFindIsLast(meta.value.entries, version);
      return Ok((meta.value.entries[e.value].yanked, meta.value.entries[e.value].cksum));
    }

    method GetSparseEntry(crateName: string, pullOk: bool) returns (r: Result<seq<CrateVersion>, IndexError>)
      requires Valid()
      modifies metaFileLocks
      ensures Valid()
      ensures r == if MetaPath(ToLower(crateName)).None? then Err(CrateNameNotAllowed)
                   else if !pullOk then Err(ServiceError)
                   else if MetaPath(ToLower(crateName)).value in contents then
                     Ok(contents[MetaPath(ToLower(crateName)).value].entries)
                   else Err(NotFound)
    {
      var lock := AccessCrate(crateName);
      if lock.Err? {
        return Err(lock.error);
      }
      var (key, path, id) := lock.value;
      var meta := Deserialize(path, pullOk);
      DropMetaPath(key, id);
      return if meta.Ok? then Ok(meta.value.entries) else Err(meta.error);
    }
  }

  lemma AcceptedExactly(name: string)
    ensures MetaPath(ToLower(name)).Some? <==> 1 <= |name| <= 64 && IsCrateName(name)
  {
    AcceptedNamesExactly(name);
    forall i | 0 <= i < |name| ensures IsNameChar(name[i]) <==> name[i] in LOWER + UPPER + DIGITS + "-_" {
      NameCharExactly(name[i]);
    }
  }

  /** What the atomic index says to an update of a crate with an allowed name. */
  lemma UpdateAnswers(contents: map<string, IndexFile>, op: Op)
    requires IsWriter(op)
    ensures var path := MetaPath(ToLower(CrateNameOf(op)));
            path.Some? ==>
              var file := View(contents, path.value);
              var verdict := Judge(file, op);
              match op
              case PublishCrate(p, cksum, _) =>
                verdict == if HasVersion(EntriesOf(file), p.vers) then Refuse(Conflict)
                           else Commit(IndexFile(EntriesOf(file) + [ReleaseOf(p, cksum)], Some(p)))
              case SetYank(_, vers, _) =>
                if HasVersion(EntriesOf(file), vers) then verdict.Commit? else verdict == Refuse(NotFound)
              case ReadEntries(_) => true
  {
    var path := MetaPath(ToLower(CrateNameOf(op)));
    if path.Some? {
      match op
      case PublishCrate(p, cksum, tarball) => PublishExactly(View(contents, path.value), p, cksum, tarball);
      case SetYank(name, vers, yank) => YankExactly(View(contents, path.value), name, vers, yank);
      case _ =>
    }
  }

  lemma {:induction false} RFindIsLast(entries: seq<CrateVersion>, version: Version)
    requires RFind(entries, version).Some?
    ensures forall j | RFind(entries, version).value < j < |entries| :: entries[j].vers != version
  {
    var n := |entries| - 1;
    if entries[n].vers != version {
      RFindIsLast(entries[..n], version);
    }
  }

  method FindLast(releases: seq<CrateVersion>, version: Version) returns (r: Option<nat>)
    ensures r == RFind(releases, version)
  {
    var i := |releases|;
    assert releases[..i] == releases;
    while i > 0
      invariant 0 <= i <= |releases|
      invariant RFind(releases, version) == RFind(releases[..i], version)
    {
      i := i - 1;
      assert releases[..i + 1][..i] == releases[..i];
      if releases[i].vers == version {
        return Some(i);
      }
    }
    return None;
  }

  method AnyVersion(releases: seq<CrateVersion>, version: Version) returns (r: bool)
    ensures r == HasVersion(releases, version)
  {
    for i := 0 to |releases|
      invariant forall j | 0 <= j < i :: releases[j].vers != version
    {
      if releases[i].vers == version {
        return true;
      }
    }
    return false;
  }

  /** What an update did: the verdict on the file as it was, carried out if nothing failed. */
  ghost predicate UpdatedAt(path: string, before: map<string, IndexFile>, after: map<string, IndexFile>, op: Op,
                            pullOk: bool, endStepOk: bool, putOk: bool, r: Result<(), IndexError>) {
    if !pullOk then after == before && r == Err(ServiceError)
    else
      match Judge(View(before, path), op)
      case Commit(file) =>
        if endStepOk && putOk then after == before[path := file] && r == Ok(())
        else after == before && r == Err(ServiceError)
      case Refuse(error) => after == before && r == Err(error)
      case Answer(_) => false
  }

  /** The request gets as far as its end step. */
  ghost predicate ReachesAt(path: string, before: map<string, IndexFile>, op: Op, pullOk: bool) {
    pullOk && Judge(View(before, path), op).Commit?
  }

  ghost predicate Reaches(before: map<string, IndexFile>, op: Op, pullOk: bool) {
    var path := MetaPath(ToLower(CrateNameOf(op)));
    path.Some? && ReachesAt(path.value, before, op, pullOk)
  }

  ghost predicate Updated(before: map<string, IndexFile>, after: map<string, IndexFile>, op: Op, pullOk: bool,
                          endStepOk: bool, putOk: bool, r: Result<(), IndexError>) {
    var path := MetaPath(ToLower(CrateNameOf(op)));
    if path.None? then after == before && r == Err(CrateNameNotAllowed)
    else UpdatedAt(path.value, before, after, op, pullOk, endStepOk, putOk, r)
  }
}
