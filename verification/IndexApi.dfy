/** The sparse index endpoint: a URL path to the repaired entries of one crate. */
module IndexApi {
  import opened ApiTypes
  import opened CratePaths
  import opened FeatureRepair
  import opened FsAuthProvider
  import opened FsIndexProvider
  import opened IndexOps
  import opened Ownership
  import opened OwnershipRuns
  import opened RegistryTypes
  import opened Strings
  import opened Wrappers

  ghost predicate RepairedOf(before: seq<CrateVersion>, after: seq<CrateVersion>) {
    |before| == |after| && forall i | 0 <= i < |before| :: RepairedIn(before, after, i)
  }

  /** The caller has shown a valid token, if the registry asks for one. */
  ghost predicate Admitted(authRequired: bool, header: Option<string>, tokenFromStr: string -> Option<Token>,
                           p: Provider) {
    authRequired ==>
      header.Some? && tokenFromStr(header.value).Some? && p.mem.Some? &&
      tokenFromStr(header.value).value in p.mem.value.tokenOwners
  }

  method Admit(auth: FsAuthProvider, header: Option<string>, tokenFromStr: string -> Option<Token>, loadOk: bool)
    returns (r: Result<(), ApiError>)
    requires Sound(auth.Contents())
    modifies auth`owners
    ensures Sound(auth.Contents()) && auth.disk == old(auth.disk)
    ensures auth.owners == old(auth.owners) || fresh(auth.owners)
    ensures r.Ok? <==> Admitted(true, header, tokenFromStr, auth.Contents())
    ensures r.Err? ==> r.error == if header.None? then Unauthorized
                                  else if tokenFromStr(header.value).None? then Auth(InvalidCredentials)
                                  else if auth.owners == null then Auth(AuthError.ServiceError)
                                  else Auth(InvalidCredentials)
  {
    if header.None? {
      return Err(Unauthorized);
    }
    ghost var before := auth.Contents();
    var valid := auth.EnsureValidToken(tokenFromStr(header.value), loadOk);
    assert (auth.Contents(), valid) == Served(before, Request.CheckToken(tokenFromStr(header.value)), loadOk, true);
    return if valid.Ok? then Ok(()) else Err(Auth(valid.error));
  }

  /** `get_sparse_meta`: a path without `/` is refused, then a caller without a token where one is asked for; for
      anybody else the client's URL of a crate leads to that crate's own file, with every entry repaired. */
  method GetSparseMeta(index: FsIndexProvider, auth: FsAuthProvider, authRequired: bool, header: Option<string>,
                       tokenFromStr: string -> Option<Token>, crateIndexPath: string, loadOk: bool, pullOk: bool)
    returns (r: Result<seq<CrateVersion>, ApiError>)
    requires index.Valid() && Sound(auth.Contents())
    modifies index.metaFileLocks, auth`owners
    ensures index.Valid() && Sound(auth.Contents()) && auth.disk == old(auth.disk)
    ensures r == Err(BadRequest) <==> '/' !in crateIndexPath
    ensures '/' in crateIndexPath ==>
              (r.Err? && (r.error.Unauthorized? || r.error.Auth?) <==>
               !Admitted(authRequired, header, tokenFromStr, auth.Contents()))
    ensures Admitted(authRequired, header, tokenFromStr, auth.Contents()) ==>
              forall name | IsIndexName(name) && crateIndexPath == IndexUrl(name) ::
                if pullOk then Fetched(index.contents, name, r) else r == Err(Index(IndexError.ServiceError))
  {
    var parts := SplitLast(crateIndexPath, '/');
    SplitLastAbsent(crateIndexPath, '/');
    if parts.None? {
      return Err(BadRequest);
    }
    if authRequired {
      var admitted := Admit(auth, header, tokenFromStr, loadOk);
      if admitted.Err? {
        return Err(admitted.error);
      }
    }
    forall name | IsIndexName(name) && crateIndexPath == IndexUrl(name)
      ensures parts.value.1 == name && ToLower(name) == name
    {
      NameAfterLastSlash(name);
      IndexNameIsLower(name);
    }
    r := Fetch(index, parts.value.1, pullOk);
  }

  /** The repaired entries of the crate's file, or not found. */
  ghost predicate Fetched(contents: map<string, IndexFile>, name: string, r: Result<seq<CrateVersion>, ApiError>)
    requires IsIndexName(name)
  {
    var path := MetaPath(name).value;
    if path in contents then r.Ok? && RepairedOf(contents[path].entries, r.value)
    else r == Err(Index(NotFound))
  }

  method Fetch(index: FsIndexProvider, crateName: string, pullOk: bool)
    returns (r: Result<seq<CrateVersion>, ApiError>)
    requires index.Valid()
    modifies index.metaFileLocks
    ensures index.Valid()
    ensures r.Err? ==> r.error.Index?
    ensures IsIndexName(crateName) && ToLower(crateName) == crateName ==>
              if pullOk then Fetched(index.contents, crateName, r) else r == Err(Index(IndexError.ServiceError))
  {
    var entries := index.GetSparseEntry(crateName, pullOk);
    if entries.Err? {
      return Err(Index(entries.error));
    }
    var found := entries.value;
    var list := new CrateVersion[|found|](i requires 0 <= i < |found| => found[i]);
    assert list[..] == found;
    EnsureCorrectMetadata(list);
    return Ok(list[..]);
  }
}
