/** The publish handler: the frame, the right to publish, the index with its end step, and the rollback. */
module PublishApi {
  import opened ApiTypes
  import opened Bytes
  import opened CratePaths
  import opened EndStep
  import opened FsAuthProvider
  import opened FsIndexProvider
  import opened IndexOps
  import opened Ownership
  import opened OwnershipRuns
  import opened PublishFrame
  import opened RegistryTypes
  import opened Storage
  import opened StoragePaths
  import opened Wrappers
  import SemVer

  /** What will come of the inputs and outputs one request makes. */
  datatype Weather = Weather(loadOk: bool, pullOk: bool, putFileOk: bool, tarball: TarballWeather)

  /** The request carries `p` and `tarball`. */
  ghost predicate Carries(body: seq<Byte>, decode: seq<Byte> -> Option<Publish>, p: Publish, tarball: seq<Byte>) {
    exists json, rest :: IsFramed(body, json, tarball, rest) && decode(json) == Some(p)
  }

  class PublishApi {
    const auth: FsAuthProvider
    const index: FsIndexProvider
    const storage: S3StorageProvider

    constructor (auth: FsAuthProvider, index: FsIndexProvider, storage: S3StorageProvider)
      ensures this.auth == auth && this.index == index && this.storage == storage
    {
      this.auth, this.index, this.storage := auth, index, storage;
    }

    ghost predicate Valid()
      reads this, auth, auth.owners, index, index.metaFileLocks
    {
      Sound(auth.Contents()) && index.Valid()
    }

    ghost function Stored(): (s: Stores)
      reads index, storage
    {
      Stores(index.contents, storage.bucket)
    }

    /** The part of the handler behind the frame and the right to publish. */
    method Store(p: Publish, crateBytes: seq<Byte>, cksum: Checksum, w: Weather) returns (r: Result<(), IndexError>)
      requires index.Valid() && Possible(w.tarball)
      modifies index`files, index`contents, index.metaFileLocks, storage
      ensures index.Valid() && StoredAs(old(Stored()), Stored(), p, crateBytes, cksum, w, r)
    {
      var version := SemVer.Print(p.vers);
      var endStep := new EndStep(storage, p.name, version, crateBytes, cksum, w.tarball.written, w.tarball.ok);
      r := index.PublishRelease(p, cksum, endStep, w.pullOk, w.putFileOk);
      if r.Ok? {
        assert endStep.storedCrate;
      } else if endStep.storedCrate {
        var deleted := storage.DeleteCrate(p.name, version, cksum, w.tarball.newGone, w.tarball.newDeleted,
                                           w.tarball.oldGone, w.tarball.oldDeleted);
      }
    }

    /** The caller's right to publish under that name. */
    method Admit(token: Option<Token>, name: string, loadOk: bool) returns (r: Result<(), AuthError>)
      requires Sound(auth.Contents())
      modifies auth, auth.owners
      ensures Sound(auth.Contents()) && (auth.owners == old(auth.owners) || fresh(auth.owners))
      ensures r.Ok? <==> MayPublish(auth.Contents(), token, name)
      ensures r.Err? ==> r.error == Denied(auth.Contents(), token)
    {
      ghost var before := auth.Contents();
      r := auth.Publish(token, name, loadOk);
      AllowedIsOwner(before, token, name, loadOk);
    }

    /** The request that `Decode` has read. */
    method Serve(token: Option<Token>, p: Publish, crateBytes: seq<Byte>, cksum: Checksum, w: Weather)
      returns (r: Result<(), ApiError>)
      requires Valid() && Possible(w.tarball)
      modifies auth, auth.owners, index`files, index`contents, index.metaFileLocks, storage
      ensures Valid() && Handled(old(Stored()), Stored(), auth.Contents(), token, p, crateBytes, cksum, w, r)
    {
      var allowed := Admit(token, p.name, w.loadOk);
      if allowed.Err? {
        return Err(Auth(allowed.error));
      }
      var stored := Store(p, crateBytes, cksum, w);
      return if stored.Ok? then Ok(()) else Err(Index(stored.error));
    }

    /** Without a token, or with a body that is no framed `Publish`, nothing happens; any other body is handled as the
        publication it carries. */
    method Publish(header: Option<string>, tokenFromStr: string -> Option<Token>, body: seq<Byte>,
                   decode: seq<Byte> -> Option<Publish>, digest: seq<Byte> -> Checksum, w: Weather)
      returns (r: Result<(), ApiError>)
      requires Valid() && Possible(w.tarball)
      modifies auth, auth.owners, index`files, index`contents, index.metaFileLocks, storage
      ensures Valid()
      ensures r == Err(Unauthorized) <==> header.None?
      ensures r == Err(BadRequest) <==> header.Some? && forall p, tarball :: !Carries(body, decode, p, tarball)
      ensures if r == Err(Unauthorized) || r == Err(BadRequest) then
                Stored() == old(Stored()) && auth.Contents() == old(auth.Contents())
              else
                exists p, tarball :: Carries(body, decode, p, tarball) &&
                  Handled(old(Stored()), Stored(), auth.Contents(), tokenFromStr(header.value), p, tarball,
                          digest(tarball), w, r)
    {
      if header.None? {
        return Err(Unauthorized);
      }
      var request := Decode(body, decode);
      if request.None? {
        return Err(BadRequest);
      }
      var (p, crateBytes) := request.value;
      r := Serve(tokenFromStr(header.value), p, crateBytes, digest(crateBytes), w);
    }
  }

  // ---- What a handled publication means ----

  /** The two stores of a publication: the records of the index files, and the tarballs. */
  datatype Stores = Stores(contents: map<string, IndexFile>, bucket: Bucket)

  ghost predicate StoredAs(s: Stores, s': Stores, p: Publish, tarball: seq<Byte>, cksum: Checksum, w: Weather,
                           r: Result<(), IndexError>) {
    var op := PublishCrate(p, cksum, tarball);
    Updated(s.contents, s'.contents, op, w.pullOk, w.tarball.ok, w.putFileOk, r) &&
    s'.bucket == BucketAfter(s.bucket, p, tarball, cksum, w.tarball, Reaches(s.contents, op, w.pullOk), r.Ok?)
  }

  /** A publisher without the right is turned away; any other publication goes to the index. */
  ghost predicate Handled(s: Stores, s': Stores, auth: Provider, token: Option<Token>, p: Publish, tarball: seq<Byte>,
                          cksum: Checksum, w: Weather, r: Result<(), ApiError>) {
    if !MayPublish(auth, token, p.name) then s' == s && r == Err(Auth(Denied(auth, token)))
    else
      (r.Err? ==> r.error.Index?) &&
      StoredAs(s, s', p, tarball, cksum, w, if r.Ok? then Ok(()) else Err(r.error.index))
  }

  /** Why a publisher is turned away. */
  ghost function Denied(auth: Provider, token: Option<Token>): AuthError {
    if token.None? then InvalidCredentials
    else if auth.mem.None? then AuthError.ServiceError
    else if token.value !in auth.mem.value.tokenOwners then InvalidCredentials
    else Forbidden
  }

  /** A failure says what failed first. */
  lemma FailureSaysWhy(s: Stores, s': Stores, auth: Provider, token: Option<Token>, p: Publish, tarball: seq<Byte>,
                       cksum: Checksum, w: Weather, r: Result<(), ApiError>)
    requires Handled(s, s', auth, token, p, tarball, cksum, w, r) && r.Err?
    ensures var path := MetaPath(ToLower(p.name));
            r.error == if token.None? then Auth(InvalidCredentials)
                       else if auth.mem.None? then Auth(AuthError.ServiceError)
                       else if token.value !in auth.mem.value.tokenOwners then Auth(InvalidCredentials)
                       else if !MayPublish(auth, token, p.name) then Auth(Forbidden)
                       else if path.None? then Index(CrateNameNotAllowed)
                       else if !w.pullOk then Index(IndexError.ServiceError)
                       else if HasVersion(EntriesOf(View(s.contents, path.value)), p.vers) then Index(Conflict)
                       else Index(IndexError.ServiceError)
  {
    MayPublishExactly(auth, token, p.name);
    UpdateAnswers(s.contents, PublishCrate(p, cksum, tarball));
  }

  /** The right to publish, in full. */
  lemma MayPublishExactly(p: Provider, token: Option<Token>, name: string)
    ensures MayPublish(p, token, name) <==>
            token.Some? && p.mem.Some? && token.value in p.mem.value.tokenOwners && name in p.mem.value.crateOwners &&
            p.mem.value.tokenOwners[token.value] in p.mem.value.crateOwners[name]
  {
  }

  /** It succeeds exactly for an owner with an allowed name and a new version when nothing fails; then the release is
      at the end of its crate's file and the tarball at its path. */
  lemma SuccessExactly(s: Stores, s': Stores, auth: Provider, token: Option<Token>, p: Publish, tarball: seq<Byte>,
                       cksum: Checksum, w: Weather, r: Result<(), ApiError>)
    requires Handled(s, s', auth, token, p, tarball, cksum, w, r)
    ensures r.Ok? <==> MayPublish(auth, token, p.name) && w.pullOk && w.tarball.ok && w.putFileOk &&
                       MetaPath(ToLower(p.name)).Some? &&
                       !HasVersion(EntriesOf(View(s.contents, MetaPath(ToLower(p.name)).value)), p.vers)
    ensures r.Ok? ==> Listed(s.contents, s'.contents, p, cksum) &&
                      s'.bucket == s.bucket[NewPath(p.name, SemVer.Print(p.vers), cksum) := tarball]
  {
  }

  /** A failure leaves the index as it was, and undoes what it did to the bucket. */
  lemma FailureUndone(s: Stores, s': Stores, auth: Provider, token: Option<Token>, p: Publish, tarball: seq<Byte>,
                      cksum: Checksum, w: Weather, r: Result<(), ApiError>)
    requires Handled(s, s', auth, token, p, tarball, cksum, w, r) && r.Err? && Possible(w.tarball)
    ensures var newPath, oldPath := NewPath(p.name, SemVer.Print(p.vers), cksum), OldPath(p.name, SemVer.Print(p.vers));
            s'.contents == s.contents &&
            (forall key | key != newPath && key != oldPath ::
              (key in s'.bucket <==> key in s.bucket) && (key in s.bucket ==> s'.bucket[key] == s.bucket[key])) &&
            (newPath in s.bucket || oldPath in s.bucket || s'.bucket == s.bucket ||
             (w.tarball.written && !(w.tarball.ok && w.tarball.newGone)))
  {
    FailureIsUndone(s.bucket, p, tarball, cksum, w.tarball, true);
  }

  lemma AllowedIsOwner(p: Provider, token: Option<Token>, name: string, loadOk: bool)
    ensures var served := Served(p, Request.AuthPublish(token, name), loadOk, true);
            served.1.Ok? <==> MayPublish(served.0, token, name)
  {
  }

  /** The two parts of the body, if it is framed and its first part is a `Publish`. */
  method Decode(body: seq<Byte>, decode: seq<Byte> -> Option<Publish>) returns (r: Option<(Publish, seq<Byte>)>)
    ensures r.Some? ==> Carries(body, decode, r.value.0, r.value.1)
    ensures r.None? ==> forall p, tarball :: !Carries(body, decode, p, tarball)
  {
    var parts := ParseFrame(body);
    if parts.Err? {
      return None;
    }
    var (jsonBytes, crateBytes) := parts.value;
    var json := decode(jsonBytes);
    return if json.None? then None else Some((json.value, crateBytes));
  }

  /** The token belongs to an owner of the crate. */
  ghost predicate MayPublish(p: Provider, token: Option<Token>, name: string) {
    token.Some? && p.mem.Some? && Authorized(p.mem.value, token.value, name).Ok?
  }

  /** The crate's file has the release added at its end. */
  ghost predicate Listed(before: map<string, IndexFile>, after: map<string, IndexFile>, p: Publish, cksum: Checksum) {
    var path := MetaPath(ToLower(p.name));
    path.Some? && path.value in after && after == before[path.value := after[path.value]] &&
    after[path.value].latest == Some(p) &&
    after[path.value].entries == EntriesOf(View(before, path.value)) + [ReleaseOf(p, cksum)]
  }
}
